/** The menu tree: entries linked by first-child, next-sibling and parent
    pointers, as in `struct menu`, and the forests such links represent. */
module MenuTree {
  import opened Sequences


  /** An entry; 0 is the root menu. */
  type Entry = nat

  datatype Link = Null | To(entry: Entry)

  /** The three pointer fields of every entry. */
  datatype Links = Links(next: map<Entry, Link>, list: map<Entry, Link>, parent: map<Entry, Link>)

  predicate HasEntry(l: Links, e: Entry) {
    e in l.next && e in l.list && e in l.parent
  }

  /** A list of sibling entries with everything below them. */
  datatype Forest = Empty | Node(entry: Entry, kids: Forest, rest: Forest)

  function Preorder(f: Forest): seq<Entry> {
    match f
    case Empty => []
    case Node(e, kids, rest) => [e] + Preorder(kids) + Preorder(rest)
  }

  /** The pointer to the first entry of `f`; to `end` if there is none. */
  function HeadOr(f: Forest, end: Link): Link {
    if f.Empty? then end else To(f.entry)
  }

  function Append(f: Forest, g: Forest): Forest {
    match f
    case Empty => g
    case Node(e, kids, rest) => Node(e, kids, Append(rest, g))
  }

  function LastEntry(f: Forest): Entry
    requires f.Node?
  {
    if f.rest.Empty? then f.entry else LastEntry(f.rest)
  }

  /** The links spell the forest: the siblings have the parent `par`, every child
      list belongs to its entry, and the sibling list runs on to `end`. */
  ghost predicate Linked(l: Links, f: Forest, par: Link, end: Link) {
    match f
    case Empty => true
    case Node(e, kids, rest) =>
      && HasEntry(l, e)
      && l.parent[e] == par && l.list[e] == HeadOr(kids, Null) && l.next[e] == HeadOr(rest, end)
      && Linked(l, kids, To(e), Null) && Linked(l, rest, par, end)
  }

  /** The links of the entry are the same in both. */
  ghost predicate SameAt(l: Links, l': Links, e: Entry) {
    HasEntry(l, e) ==>
      HasEntry(l', e) && l'.next[e] == l.next[e] && l'.list[e] == l.list[e] && l'.parent[e] == l.parent[e]
  }

  ghost predicate SameOn(l: Links, l': Links, s: seq<Entry>) {
    forall e | e in s :: SameAt(l, l', e)
  }

  // ----- lemmas about forests -----

  lemma {:induction false} PreorderAppend(f: Forest, g: Forest)
    ensures Preorder(Append(f, g)) == Preorder(f) + Preorder(g)
  {
    if f.Node? {
      PreorderAppend(f.rest, g);
      ConcatAssociative([f.entry] + Preorder(f.kids), Preorder(f.rest), Preorder(g));
    }
  }

  lemma {:induction false} AppendEmpty(f: Forest)
    ensures Append(f, Empty) == f
  {
    if f.Node? {
      AppendEmpty(f.rest);
    }
  }

  lemma {:induction false} LinkedAppend(l: Links, f: Forest, g: Forest, par: Link, end: Link)
    ensures Linked(l, Append(f, g), par, end) <==> Linked(l, f, par, HeadOr(g, end)) && Linked(l, g, par, end)
    ensures HeadOr(Append(f, g), end) == HeadOr(f, HeadOr(g, end))
  {
    if f.Node? {
      LinkedAppend(l, f.rest, g, par, end);
    }
  }

  /** Links elsewhere do not matter. */
  lemma {:induction false} LinkedFrame(l: Links, l': Links, f: Forest, par: Link, end: Link)
    requires Linked(l, f, par, end)
    requires SameOn(l, l', Preorder(f))
    ensures Linked(l', f, par, end)
  {
    if f.Node? {
      assert f.entry in Preorder(f);
      assert SameAt(l, l', f.entry);
      assert forall e | e in Preorder(f.kids) :: e in Preorder(f);
      assert forall e | e in Preorder(f.rest) :: e in Preorder(f);
      LinkedFrame(l, l', f.kids, To(f.entry), Null);
      LinkedFrame(l, l', f.rest, par, end);
    }
  }

  /** The last sibling is in the forest, and its next pointer is the end. */
  lemma {:induction false} LastLinked(l: Links, f: Forest, par: Link, end: Link)
    requires f.Node? && Linked(l, f, par, end)
    ensures LastEntry(f) in Preorder(f) && HasEntry(l, LastEntry(f))
    ensures l.next[LastEntry(f)] == end
  {
    if f.rest.Node? {
      LastLinked(l, f.rest, par, end);
    }
  }

  function SetNext(l: Links, e: Entry, to: Link): Links {
    l.(next := l.next[e := to])
  }

  function SetList(l: Links, e: Entry, to: Link): Links {
    l.(list := l.list[e := to])
  }

  function SetParent(l: Links, e: Entry, to: Link): Links {
    l.(parent := l.parent[e := to])
  }

  /** Moving the end of a sibling list. */
  lemma {:induction false} LinkedNewEnd(l: Links, f: Forest, par: Link, end: Link, end': Link)
    requires f.Node? && Linked(l, f, par, end) && Distinct(Preorder(f))
    ensures Linked(SetNext(l, LastEntry(f), end'), f, par, end')
  {
    var l' := SetNext(l, LastEntry(f), end');
    DistinctParts(f);
    LastLinked(l, f, par, end);
    if f.rest.Node? {
      LastLinked(l, f.rest, par, end);
      LinkedNewEnd(l, f.rest, par, end, end');
    }
    assert SameOn(l, l', Preorder(f.kids));
    LinkedFrame(l, l', f.kids, To(f.entry), Null);
  }

  lemma DistinctParts(f: Forest)
    requires f.Node? && Distinct(Preorder(f))
    ensures Distinct(Preorder(f.kids)) && Distinct(Preorder(f.rest))
    ensures f.entry !in Preorder(f.kids) && f.entry !in Preorder(f.rest)
    ensures forall e | e in Preorder(f.kids) :: e !in Preorder(f.rest)
  {
    var a, b := Preorder(f.kids), Preorder(f.rest);
    DistinctConcat([f.entry] + a, b);
    DistinctConcat([f.entry], a);
    assert f.entry in [f.entry];
    assert f.entry in [f.entry] + a;
  }

  /** The links after the child list of `e` was moved behind `e`, its last entry
      being linked to what followed `e`. */
  function HoistLinks(l: Links, e: Entry, last: Entry): Links {
    if !HasEntry(l, e) then l else
    var l1 := SetNext(l, last, l.next[e]);
    SetList(SetNext(l1, e, l1.list[e]), e, Null)
  }

  lemma HoistLinked(l: Links, e: Entry, kids: Forest, rest: Forest, par: Link)
    requires kids.Node? && Distinct(Preorder(Node(e, kids, rest)))
    requires HasEntry(l, e) && l.parent[e] == par && l.list[e] == HeadOr(kids, Null) && l.next[e] == HeadOr(rest, Null)
    requires Linked(l, kids, par, Null) && Linked(l, rest, par, Null)
    ensures var l' := HoistLinks(l, e, LastEntry(kids));
            && Linked(l', Node(e, Empty, Append(kids, rest)), par, Null)
            && forall x | x !in Preorder(Node(e, kids, rest)) :: SameAt(l, l', x)
  {
    var f, last := Node(e, kids, rest), LastEntry(kids);
    DistinctParts(f);
    LastLinked(l, kids, par, Null);
    LinkedNewEnd(l, kids, par, Null, l.next[e]);
    var l1, l' := SetNext(l, last, l.next[e]), HoistLinks(l, e, last);
    LinkedFrame(l1, l', kids, par, l.next[e]);
    LinkedFrame(l, l', rest, par, Null);
    LinkedAppend(l', kids, rest, par, Null);
    HeadAppend(kids, rest);
    assert e in Preorder(f) && last in Preorder(f);
  }

  lemma HeadAppend(f: Forest, g: Forest)
    requires f.Node?
    ensures Append(f, g).Node? && Append(f, g).entry == f.entry
  {
  }

  // ----- the links keep entries apart -----

  /** Following the parent pointers `k` times leads from `a` to `b`. */
  ghost predicate Up(l: Links, a: Link, k: nat, b: Link)
    decreases k
  {
    if k == 0 then a == b
    else a != Null && HasEntry(l, a.entry) && Up(l, l.parent[a.entry], k - 1, b)
  }

  lemma {:induction false} UpUnique(l: Links, a: Link, k: nat, b: Link, c: Link)
    requires Up(l, a, k, b) && Up(l, a, k, c)
    ensures b == c
    decreases k
  {
    if k > 0 {
      UpUnique(l, l.parent[a.entry], k - 1, b, c);
    }
  }

  /** The depth of an entry is determined by the pointers. */
  lemma {:induction false} DepthUnique(l: Links, a: Link, j: nat, k: nat)
    requires Up(l, a, j, Null) && Up(l, a, k, Null)
    ensures j == k
    decreases k
  {
    if j > 0 && k > 0 {
      DepthUnique(l, l.parent[a.entry], j - 1, k - 1);
    }
  }

  lemma {:induction false} UpFurther(l: Links, a: Link, j: nat, b: Link, k: nat, c: Link)
    requires Up(l, a, j, b) && Up(l, b, k, c)
    ensures Up(l, a, j + k, c)
    decreases j
  {
    if j > 0 {
      UpFurther(l, l.parent[a.entry], j - 1, b, k, c);
    }
  }

  /** Following the sibling pointers `k` times leads to the end of the list. */
  ghost predicate Along(l: Links, a: Link, k: nat)
    decreases k
  {
    if k == 0 then a == Null
    else a != Null && HasEntry(l, a.entry) && Along(l, l.next[a.entry], k - 1)
  }

  lemma {:induction false} PlaceUnique(l: Links, a: Link, j: nat, k: nat)
    requires Along(l, a, j) && Along(l, a, k)
    ensures j == k
    decreases k
  {
    if j > 0 && k > 0 {
      PlaceUnique(l, l.next[a.entry], j - 1, k - 1);
    }
  }

  /** The entries of the list itself. */
  function TopEntries(f: Forest): seq<Entry> {
    match f
    case Empty => []
    case Node(e, _, rest) => [e] + TopEntries(rest)
  }

  lemma {:induction false} AlongList(l: Links, f: Forest, par: Link)
    requires Linked(l, f, par, Null)
    ensures Along(l, HeadOr(f, Null), |TopEntries(f)|)
  {
    if f.Node? {
      AlongList(l, f.rest, par);
    }
  }

  /** The place of an entry of the list, counted from the end. */
  lemma {:induction false} PlaceOf(l: Links, f: Forest, par: Link, e: Entry) returns (k: nat)
    requires Linked(l, f, par, Null) && e in TopEntries(f)
    ensures k <= |TopEntries(f)| && Along(l, To(e), k)
  {
    if e == f.entry {
      AlongList(l, f, par);
      k := |TopEntries(f)|;
    } else {
      k := PlaceOf(l, f.rest, par, e);
    }
  }

  /** The first entry of a list does not come again in it. */
  lemma FirstApart(l: Links, f: Forest, par: Link)
    requires f.Node? && Linked(l, f, par, Null)
    ensures f.entry !in TopEntries(f.rest)
  {
    AlongList(l, f, par);
    if f.entry in TopEntries(f.rest) {
      var k := PlaceOf(l, f.rest, par, f.entry);
      PlaceUnique(l, To(f.entry), k, |TopEntries(f)|);
    }
  }

  ghost predicate BelowTop(l: Links, f: Forest, x: Entry, k: nat, e: Entry) {
    e in TopEntries(f) && Up(l, To(x), k, To(e))
  }

  /** The parent pointers lead from every entry to one of the list itself. */
  lemma {:induction false} LeadsToTop(l: Links, f: Forest, par: Link, x: Entry) returns (k: nat, e: Entry)
    requires Linked(l, f, par, Null) && x in Preorder(f)
    ensures BelowTop(l, f, x, k, e) && HasEntry(l, e) && l.parent[e] == par
  {
    if x == f.entry {
      k, e := 0, x;
    } else if x in Preorder(f.kids) {
      var top;
      k, top := LeadsToTop(l, f.kids, To(f.entry), x);
      assert Up(l, To(top), 1, To(f.entry)) by { assert Up(l, To(f.entry), 0, To(f.entry)); }
      UpFurther(l, To(x), k, To(top), 1, To(f.entry));
      k, e := k + 1, f.entry;
    } else {
      k, e := LeadsToTop(l, f.rest, par, x);
    }
  }

  /** Two entries of one list above the same entry are the same. */
  lemma TopsMeet(l: Links, par: Link, n: nat, x: Entry, j: nat, a: Entry, k: nat, b: Entry)
    requires Up(l, par, n, Null) && Up(l, To(x), j, To(a)) && Up(l, To(x), k, To(b))
    requires HasEntry(l, a) && HasEntry(l, b) && l.parent[a] == par && l.parent[b] == par
    ensures j == k && a == b
  {
    assert Up(l, To(a), n + 1, Null) && Up(l, To(b), n + 1, Null);
    UpFurther(l, To(x), j, To(a), n + 1, Null);
    UpFurther(l, To(x), k, To(b), n + 1, Null);
    DepthUnique(l, To(x), j + (n + 1), k + (n + 1));
    UpUnique(l, To(x), j, To(a), To(b));
  }

  /** Entries that the links arrange in a tree are all different: the parent pointers
      fix the depth, and the sibling pointers the place in a list. */
  lemma {:induction false} LinkedDistinct(l: Links, f: Forest, par: Link, n: nat)
    requires Linked(l, f, par, Null) && Up(l, par, n, Null)
    ensures Distinct(Preorder(f))
  {
    if f.Node? {
      var e := f.entry;
      LinkedDistinct(l, f.kids, To(e), n + 1);
      LinkedDistinct(l, f.rest, par, n);
      forall x | x in Preorder(f.kids) ensures x != e && x !in Preorder(f.rest) {
        ChildApart(l, f, par, n, x);
      }
      if e in Preorder(f.rest) {
        var k, top := LeadsToTop(l, f.rest, par, e);
        TopsMeet(l, par, n, e, 0, e, k, top);
        FirstApart(l, f, par);
      }
      DistinctConcat([e], Preorder(f.kids));
      DistinctConcat([e] + Preorder(f.kids), Preorder(f.rest));
    }
  }

  lemma ChildApart(l: Links, f: Forest, par: Link, n: nat, x: Entry)
    requires f.Node? && Linked(l, f, par, Null) && Up(l, par, n, Null) && x in Preorder(f.kids)
    ensures x != f.entry && x !in Preorder(f.rest)
  {
    var e := f.entry;
    var k, top := LeadsToTop(l, f.kids, To(e), x);
    assert Up(l, To(top), 1, To(e)) by { assert Up(l, To(e), 0, To(e)); }
    UpFurther(l, To(x), k, To(top), 1, To(e));
    if x == e {
      TopsMeet(l, par, n, x, k + 1, e, 0, e);
    }
    if x in Preorder(f.rest) {
      var j, other := LeadsToTop(l, f.rest, par, x);
      TopsMeet(l, par, n, x, k + 1, e, j, other);
      FirstApart(l, f, par);
    }
  }

  // ----- the stackless walk of conf_write and conf_write_defconfig -----

  /** What the walk has still to visit after the whole sublist of an entry with
      these following siblings, level by level: the siblings, then those of the
      parent, and so on. */
  datatype Pending = Done | Level(par: Entry, rest: Forest, outer: Pending)

  function PendingOrder(p: Pending): seq<Entry> {
    match p
    case Done => []
    case Level(_, rest, outer) => Preorder(rest) + PendingOrder(outer)
  }

  /** The entries a climb meets: each parent has the pending siblings after it. */
  ghost predicate PendingLinked(l: Links, p: Pending, par: Link) {
    match p
    case Done => par == Null || (HasEntry(l, par.entry) && l.next[par.entry] == Null && l.parent[par.entry] == Null)
    case Level(e, rest, outer) =>
      && par == To(e) && HasEntry(l, e) && l.next[e] == HeadOr(rest, Null)
      && Linked(l, rest, l.parent[e], Null) && PendingLinked(l, outer, l.parent[e])
  }

  function Levels(p: Pending): nat {
    match p
    case Done => 0
    case Level(_, _, outer) => 1 + Levels(outer)
  }

  /** The next entry in the order of what is pending. */
  function NextLink(rest: Forest, outer: Pending): Link
    decreases outer
  {
    if rest.Node? then To(rest.entry)
    else if outer.Done? then Null
    else NextLink(outer.rest, outer.outer)
  }

  /** The step from an entry whose child list is exhausted: its next sibling, or
      the next sibling of the nearest ancestor that has one, or the end. */
  method Climb(l: Links, from: Entry, ghost rest: Forest, ghost outer: Pending)
    returns (to: Link, ghost now: Forest, ghost later: Pending)
    requires HasEntry(l, from) && l.next[from] == HeadOr(rest, Null)
    requires Linked(l, rest, l.parent[from], Null) && PendingLinked(l, outer, l.parent[from])
    ensures to == HeadOr(now, Null) == NextLink(rest, outer)
    ensures Preorder(now) + PendingOrder(later) == Preorder(rest) + PendingOrder(outer)
    ensures to == Null ==> now == Empty && later == Done
    ensures now.Node? ==> HasEntry(l, now.entry) && Linked(l, now, l.parent[now.entry], Null)
                          && PendingLinked(l, later, l.parent[now.entry])
  {
    now, later := rest, outer;
    if l.next[from] != Null {
      return l.next[from], now, later;
    }
    var e := l.parent[from];
    while e != Null
      invariant now == Empty && PendingLinked(l, later, e)
      invariant PendingOrder(later) == Preorder(rest) + PendingOrder(outer)
                && NextLink(rest, outer) == NextLink(Empty, later)
      decreases Levels(later), if e == Null then 0 else 1
    {
      if l.next[e.entry] != Null {
        now, later := later.rest, later.outer;
        return l.next[e.entry], now, later;
      }
      later := if later.Done? then Done else later.outer;
      e := l.parent[e.entry];
    }
    to := Null;
  }

  lemma RootedDistinct(l: Links, root: Entry, f: Forest)
    requires HasEntry(l, root) && l.parent[root] == Null && l.next[root] == Null && l.list[root] == HeadOr(f, Null)
    requires Linked(l, f, To(root), Null)
    ensures Distinct(Preorder(f)) && root !in Preorder(f) && Distinct(Preorder(Node(root, f, Empty)))
  {
    assert Linked(l, Node(root, f, Empty), Null, Null) && Up(l, Null, 0, Null);
    LinkedDistinct(l, Node(root, f, Empty), Null, 0);
    DistinctParts(Node(root, f, Empty));
  }

  /** The walk from the first entry below the root: it ends and visits exactly the
      preorder of the tree, each entry once. */
  method Walk(l: Links, root: Entry, ghost f: Forest) returns (visited: seq<Entry>)
    requires HasEntry(l, root) && l.parent[root] == Null && l.next[root] == Null && l.list[root] == HeadOr(f, Null)
    requires Linked(l, f, To(root), Null)
    ensures visited == Preorder(f) && Distinct(visited) && root !in visited
  {
    RootedDistinct(l, root, f);
    visited := [];
    var menu := l.list[root];
    ghost var now, later := f, Done;
    ghost var todo := Preorder(f);
    while menu != Null
      invariant menu == HeadOr(now, Null)
      invariant todo == Preorder(now) + PendingOrder(later)
      invariant visited + todo == Preorder(f)
      invariant now == Empty ==> later == Done
      invariant now.Node? ==> HasEntry(l, now.entry) && Linked(l, now, l.parent[now.entry], Null)
                              && PendingLinked(l, later, l.parent[now.entry])
      decreases |todo|
    {
      var e := menu.entry;
      ghost var before := todo;
      todo := Preorder(now.kids) + (Preorder(now.rest) + PendingOrder(later));
      NextInOrder(visited, before, e, now.kids, now.rest, later);
      visited := visited + [e];
      if l.list[e] != Null {
        menu := l.list[e];
        now, later := now.kids, Level(e, now.rest, later);
      } else {
        menu, now, later := Climb(l, e, now.rest, later);
      }
    }
  }

  lemma NextInOrder(visited: seq<Entry>, todo: seq<Entry>, e: Entry, kids: Forest, rest: Forest, later: Pending)
    requires todo == Preorder(Node(e, kids, rest)) + PendingOrder(later)
    ensures var todo' := Preorder(kids) + (Preorder(rest) + PendingOrder(later));
            todo == [e] + todo' && visited + todo == (visited + [e]) + todo'
            && (kids == Empty ==> todo' == Preorder(rest) + PendingOrder(later))
  {
  }
}
