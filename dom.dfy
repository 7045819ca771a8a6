/** An abstract DOM for the annotation engine: text and element nodes, text
    content, class search over descendants, and the two rewrites the engine
    performs on child lists: removing and unwrapping the stats outline
    (content.js:277-337) and wrapping a price in a badge (content.js:263-274). */
module Dom {

  /** A text node, or an element with its class list and children.  Tag
      names and styles play no part in what is modelled. */
  datatype Node = Text(data: string) | Elem(classes: set<string>, kids: seq<Node>)

  /** The span that hugs the advertiser's stats. */
  const WrapperClass := "p2p-stats-outline"

  /** The span that hugs a highlighted price. */
  const BadgeClass := "p2p-price-highlight"

  /** `node.textContent`. */
  function TextOf(n: Node): string
    decreases n, 1
  {
    match n
    case Text(d) => d
    case Elem(_, ks) => TextOfAll(ks)
  }

  /** The concatenated text content of a child list. */
  function TextOfAll(ns: seq<Node>): string
    decreases ns, 0
  {
    if ns == [] then [] else TextOf(ns[0]) + TextOfAll(ns[1..])
  }

  /** Some node of `ns`, or a descendant of one, carries class `c`
      (`querySelector('.' + c)` on their parent). */
  predicate HasClassIn(ns: seq<Node>, c: string)
    decreases ns, 0
  {
    ns != [] && (NodeHasClass(ns[0], c) || HasClassIn(ns[1..], c))
  }

  predicate NodeHasClass(n: Node, c: string)
    decreases n, 1
  {
    n.Elem? && (c in n.classes || HasClassIn(n.kids, c))
  }

  predicate IsWrapper(n: Node) {
    n.Elem? && WrapperClass in n.classes
  }

  // ---------------------------------------------------------------------
  // Removing and unwrapping outlines

  /** Every outline below `ns` removed together with its content
      (`w.remove()` on each). */
  function Prune(ns: seq<Node>): seq<Node>
    decreases ns, 0
  {
    if ns == [] then [] else PruneNode(ns[0]) + Prune(ns[1..])
  }

  function PruneNode(n: Node): seq<Node>
    decreases n, 1
  {
    if IsWrapper(n) then []
    else match n
      case Text(_) => [n]
      case Elem(cs, ks) => [Elem(cs, Prune(ks))]
  }

  /** What the unwrapping loop appends to the stats element: each outline
      that is a child of it, taken in document order, gives up its
      outline-free children, and its own child outlines, having become
      children of the stats element, give up theirs after it. */
  function Released(ns: seq<Node>): seq<Node>
    decreases ns, 0
  {
    if ns == [] then [] else ReleasedNode(ns[0]) + Released(ns[1..])
  }

  function ReleasedNode(n: Node): seq<Node>
    decreases n, 1
  {
    if IsWrapper(n) then Prune(n.kids) + Released(n.kids) else []
  }

  /** The stats element's children after every outline in the advertiser
      cell has been visited: children that are not outlines stay where
      they were, the content of unwrapped outlines follows. */
  function Unwrapped(ns: seq<Node>): seq<Node> {
    Prune(ns) + Released(ns)
  }

  lemma {:induction false} HasClassAppend(a: seq<Node>, b: seq<Node>, c: string)
    ensures HasClassIn(a + b, c) <==> HasClassIn(a, c) || HasClassIn(b, c)
    decreases a
  {
    if a != [] {
      assert (a + b)[0] == a[0] && (a + b)[1..] == a[1..] + b;
      HasClassAppend(a[1..], b, c);
    } else {
      assert a + b == b;
    }
  }

  lemma {:induction false} PruneAppend(a: seq<Node>, b: seq<Node>)
    ensures Prune(a + b) == Prune(a) + Prune(b)
    decreases a
  {
    if a != [] {
      assert (a + b)[0] == a[0] && (a + b)[1..] == a[1..] + b;
      PruneAppend(a[1..], b);
    } else {
      assert a + b == b;
    }
  }

  lemma {:induction false} ReleasedAppend(a: seq<Node>, b: seq<Node>)
    ensures Released(a + b) == Released(a) + Released(b)
    decreases a
  {
    if a != [] {
      assert (a + b)[0] == a[0] && (a + b)[1..] == a[1..] + b;
      ReleasedAppend(a[1..], b);
    } else {
      assert a + b == b;
    }
  }

  /** No outline survives pruning. */
  lemma {:induction false} PruneNoWrapper(ns: seq<Node>)
    ensures !HasClassIn(Prune(ns), WrapperClass)
    decreases ns, 0
  {
    if ns != [] {
      PruneNodeNoWrapper(ns[0]);
      PruneNoWrapper(ns[1..]);
      HasClassAppend(PruneNode(ns[0]), Prune(ns[1..]), WrapperClass);
    }
  }

  lemma {:induction false} PruneNodeNoWrapper(n: Node)
    ensures !HasClassIn(PruneNode(n), WrapperClass)
    decreases n, 1
  {
    if !IsWrapper(n) && n.Elem? {
      PruneNoWrapper(n.kids);
      var p := Elem(n.classes, Prune(n.kids));
      assert PruneNode(n) == [p];
      assert !NodeHasClass(p, WrapperClass);
      assert [p][1..] == [];
    }
  }

  /** No outline survives unwrapping either. */
  lemma {:induction false} ReleasedNoWrapper(ns: seq<Node>)
    ensures !HasClassIn(Released(ns), WrapperClass)
    decreases ns, 0
  {
    if ns != [] {
      ReleasedNodeNoWrapper(ns[0]);
      ReleasedNoWrapper(ns[1..]);
      HasClassAppend(ReleasedNode(ns[0]), Released(ns[1..]), WrapperClass);
    }
  }

  lemma {:induction false} ReleasedNodeNoWrapper(n: Node)
    ensures !HasClassIn(ReleasedNode(n), WrapperClass)
    decreases n, 1
  {
    if IsWrapper(n) {
      PruneNoWrapper(n.kids);
      ReleasedNoWrapper(n.kids);
      HasClassAppend(Prune(n.kids), Released(n.kids), WrapperClass);
    }
  }

  lemma UnwrappedNoWrapper(ns: seq<Node>)
    ensures !HasClassIn(Unwrapped(ns), WrapperClass)
  {
    PruneNoWrapper(ns);
    ReleasedNoWrapper(ns);
    HasClassAppend(Prune(ns), Released(ns), WrapperClass);
  }

  /** Without outlines, pruning changes nothing and nothing is released. */
  lemma {:induction false} PruneWithoutWrapper(ns: seq<Node>)
    requires !HasClassIn(ns, WrapperClass)
    ensures Prune(ns) == ns && Released(ns) == []
    decreases ns, 0
  {
    if ns != [] {
      PruneNodeWithoutWrapper(ns[0]);
      PruneWithoutWrapper(ns[1..]);
      assert [ns[0]] + ns[1..] == ns;
    }
  }

  lemma {:induction false} PruneNodeWithoutWrapper(n: Node)
    requires !NodeHasClass(n, WrapperClass)
    ensures PruneNode(n) == [n] && ReleasedNode(n) == []
    decreases n, 1
  {
    if n.Elem? {
      PruneWithoutWrapper(n.kids);
    }
  }

  /** Wrapping a stats element's outline-free children in one outline and
      unwrapping it again gives back the same children in the same order. */
  lemma WrapThenUnwrap(ns: seq<Node>)
    requires !HasClassIn(ns, WrapperClass)
    ensures Unwrapped([Elem({WrapperClass}, ns)]) == ns
  {
    var w := Elem({WrapperClass}, ns);
    PruneWithoutWrapper(ns);
    assert [w][1..] == [];
    assert Prune([w]) == [];
    assert Released([w]) == ReleasedNode(w) + Released([]);
  }

  /** Removing outlines a second time changes nothing. */
  lemma PruneIdempotent(ns: seq<Node>)
    ensures Prune(Prune(ns)) == Prune(ns)
  {
    PruneNoWrapper(ns);
    PruneWithoutWrapper(Prune(ns));
  }

  /** Unwrapping a second time changes nothing. */
  lemma UnwrappedIdempotent(ns: seq<Node>)
    ensures Unwrapped(Unwrapped(ns)) == Unwrapped(ns)
  {
    UnwrappedNoWrapper(ns);
    PruneWithoutWrapper(Unwrapped(ns));
  }

  /** Outlining unwrapped children and unwrapping again gives them back. */
  lemma UnwrapOutlined(ns: seq<Node>)
    ensures Unwrapped([Elem({WrapperClass}, Unwrapped(ns))]) == Unwrapped(ns)
  {
    UnwrappedNoWrapper(ns);
    WrapThenUnwrap(Unwrapped(ns));
  }

  /** Wrapping keeps the text content. */
  lemma WrapKeepsText(ns: seq<Node>)
    ensures TextOfAll([Elem({WrapperClass}, ns)]) == TextOfAll(ns)
  {
    assert [Elem({WrapperClass}, ns)][1..] == [];
  }

  // ---------------------------------------------------------------------
  // The price badge

  /** The children of a price cell after `wrapTextNodeIfNeeded`: a cell
      without a badge whose only child is a text node gets one badge span
      holding that text (no text node at all when the text is empty);
      every other cell keeps its children. */
  function Badged(ks: seq<Node>): seq<Node> {
    if HasClassIn(ks, BadgeClass) then ks
    else if |ks| == 1 && ks[0].Text? then
      [Elem({BadgeClass}, if ks[0].data == "" then [] else [ks[0]])]
    else ks
  }

  /** After the rewrite the cell has a badge exactly when it had one or its
      only child was a text node. */
  lemma BadgedHasBadge(ks: seq<Node>)
    ensures HasClassIn(Badged(ks), BadgeClass) <==>
      HasClassIn(ks, BadgeClass) || (|ks| == 1 && ks[0].Text?)
  {
    if !HasClassIn(ks, BadgeClass) && |ks| == 1 && ks[0].Text? {
      assert NodeHasClass(Badged(ks)[0], BadgeClass);
    }
  }

  /** Running the rewrite twice is running it once. */
  lemma BadgedIdempotent(ks: seq<Node>)
    ensures Badged(Badged(ks)) == Badged(ks)
  {
    BadgedHasBadge(ks);
  }

  /** The rewrite keeps the cell's text content. */
  lemma BadgedKeepsText(ks: seq<Node>)
    ensures TextOfAll(Badged(ks)) == TextOfAll(ks)
  {
    if !HasClassIn(ks, BadgeClass) && |ks| == 1 && ks[0].Text? {
      var d := ks[0].data;
      var b := Elem({BadgeClass}, if d == "" then [] else [ks[0]]);
      assert Badged(ks) == [b];
      assert [b][1..] == [] && ks[1..] == [];
      if d != "" {
        assert [ks[0]][1..] == [];
        assert TextOfAll([ks[0]]) == d;
        assert TextOf(b) == d;
      }
      assert TextOfAll(ks) == d;
    }
  }
}
