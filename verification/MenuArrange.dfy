/** Where every entry ends up when a menu tree is finalized (menu.c): a symbol without
    children takes in the followers that pass the submenu test, and entries without a
    prompt text give their children away. */
module MenuArrange {
  import opened Expr
  import opened MenuState
  import opened MenuTree
  import opened Sequences
  import opened Submenu

  // ----- entries without a prompt text -----

  /** Every entry that has entries below it has a prompt text. */
  ghost predicate Prompted(info: map<Entry, Info>, f: Forest) {
    match f
    case Empty => true
    case Node(e, kids, rest) =>
      e in info && (kids.Node? ==> info[e].hasText) && Prompted(info, kids) && Prompted(info, rest)
  }

  /** The same, leaving the entries of the list itself aside. */
  ghost predicate PromptedBelow(info: map<Entry, Info>, f: Forest) {
    match f
    case Empty => true
    case Node(e, kids, rest) => e in info && Prompted(info, kids) && PromptedBelow(info, rest)
  }

  lemma {:induction false} PromptedAppend(info: map<Entry, Info>, f: Forest, g: Forest)
    ensures Prompted(info, Append(f, g)) <==> Prompted(info, f) && Prompted(info, g)
    ensures PromptedBelow(info, Append(f, g)) <==> PromptedBelow(info, f) && PromptedBelow(info, g)
    ensures Prompted(info, f) ==> PromptedBelow(info, f)
  {
    if f.Node? {
      PromptedAppend(info, f.rest, g);
    }
  }

  /** A sibling list after the last loop of menu_finalize: an entry without a prompt
      text gives its children to the list, behind itself. */
  function Hoisted(info: map<Entry, Info>, f: Forest): Forest
    decreases |Preorder(f)|
  {
    match f
    case Empty => Empty
    case Node(e, kids, rest) =>
      PreorderAppend(kids, rest);
      if kids.Node? && e in info && !info[e].hasText then Node(e, Empty, Hoisted(info, Append(kids, rest)))
      else Node(e, kids, Hoisted(info, rest))
  }

  /** Hoisting keeps the order. */
  lemma {:induction false} HoistedOrder(info: map<Entry, Info>, f: Forest)
    ensures Preorder(Hoisted(info, f)) == Preorder(f)
    decreases |Preorder(f)|
  {
    if f.Node? {
      PreorderAppend(f.kids, f.rest);
      ConcatAssociative([f.entry], Preorder(f.kids), Preorder(f.rest));
      HoistedOrder(info, Append(f.kids, f.rest));
      HoistedOrder(info, f.rest);
    }
  }

  /** It leaves no entry without a prompt text with children. */
  lemma {:induction false} HoistedPrompted(info: map<Entry, Info>, f: Forest)
    requires PromptedBelow(info, f)
    ensures Prompted(info, Hoisted(info, f))
    decreases |Preorder(f)|
  {
    if f.Node? {
      PreorderAppend(f.kids, f.rest);
      PromptedAppend(info, f.kids, f.rest);
      HoistedPrompted(info, Append(f.kids, f.rest));
      HoistedPrompted(info, f.rest);
    }
  }

  /** The lists that hoisting leaves alone are those in which only entries with a
      prompt text have children. */
  lemma {:induction false} HoistedFixed(info: map<Entry, Info>, f: Forest)
    requires PromptedBelow(info, f)
    ensures Hoisted(info, f) == f <==> Prompted(info, f)
  {
    if f.Node? {
      HoistedFixed(info, f.rest);
    }
  }

  // ----- symbols that take in their followers -----

  /** The condition of the prompt of an entry; y without one. */
  function PromptOf(i: Info, d: Data): ExprPtr
    requires HasPrompt(i, d)
  {
    if i.prompt.Some? then d.props[i.prompt.value].visible else None
  }

  /** The entry `e` passes the submenu test of the entry `i`. */
  predicate TakesIn(info: map<Entry, Info>, data: map<Entry, Data>, i: Entry, e: Entry) {
    && i in info && i in data && HasPrompt(info[i], data[i]) && info[i].sym.Some?
    && e in info && e in data && HasPrompt(info[e], data[e])
    && Accepted(info[i].sym.value, PromptOf(info[i], data[i]), DepOf(info[e], data[e]))
  }

  /** The entries at the front of the list that pass the test. */
  function Run(info: map<Entry, Info>, data: map<Entry, Data>, i: Entry, f: Forest): Forest {
    if f.Node? && TakesIn(info, data, i, f.entry) then Node(f.entry, f.kids, Run(info, data, i, f.rest)) else Empty
  }

  function AfterRun(info: map<Entry, Info>, data: map<Entry, Data>, i: Entry, f: Forest): Forest {
    if f.Node? && TakesIn(info, data, i, f.entry) then AfterRun(info, data, i, f.rest) else f
  }

  /** The sibling list after finalization: the followers of a leaf are arranged first,
      then the leaf takes in the run that passes its test. */
  function Arrange(info: map<Entry, Info>, data: map<Entry, Data>, f: Forest): Forest {
    match f
    case Empty => Empty
    case Node(e, kids, rest) =>
      var later := Arrange(info, data, rest);
      if kids.Node? then Node(e, Hoisted(info, Arrange(info, data, kids)), later)
      else Node(e, Hoisted(info, Run(info, data, e, later)), AfterRun(info, data, e, later))
  }

  lemma {:induction false} RunOrder(info: map<Entry, Info>, data: map<Entry, Data>, i: Entry, f: Forest)
    ensures Append(Run(info, data, i, f), AfterRun(info, data, i, f)) == f
    ensures AfterRun(info, data, i, f).Empty? ==> Run(info, data, i, f) == f
  {
    if f.Node? {
      RunOrder(info, data, i, f.rest);
    }
  }

  /** Arranging keeps the order of all entries. */
  lemma {:induction false} ArrangeOrder(info: map<Entry, Info>, data: map<Entry, Data>, f: Forest)
    ensures Preorder(Arrange(info, data, f)) == Preorder(f)
  {
    if f.Node? {
      var later := Arrange(info, data, f.rest);
      ArrangeOrder(info, data, f.rest);
      if f.kids.Node? {
        ArrangeOrder(info, data, f.kids);
        HoistedOrder(info, Arrange(info, data, f.kids));
      } else {
        var run := Run(info, data, f.entry, later);
        RunOrder(info, data, f.entry, later);
        PreorderAppend(run, AfterRun(info, data, f.entry, later));
        HoistedOrder(info, run);
        ConcatAssociative([f.entry], Preorder(run), Preorder(AfterRun(info, data, f.entry, later)));
        assert [f.entry] + Preorder(Empty) == [f.entry];
      }
    }
  }

  /** A symbol declared without children takes in all it can: the entry that follows it in
      the end does not pass its test. */
  lemma NextNotTaken(info: map<Entry, Info>, data: map<Entry, Data>, f: Forest)
    requires f.Node? && f.kids.Empty?
    ensures var g := Arrange(info, data, f);
            g.Node? && g.entry == f.entry && (g.rest.Node? ==> !TakesIn(info, data, f.entry, g.rest.entry))
  {
    AfterRunStops(info, data, f.entry, Arrange(info, data, f.rest));
  }

  lemma {:induction false} AfterRunStops(info: map<Entry, Info>, data: map<Entry, Data>, i: Entry, f: Forest)
    ensures var g := AfterRun(info, data, i, f); g.Node? ==> !TakesIn(info, data, i, g.entry)
  {
    if f.Node? && TakesIn(info, data, i, f.entry) {
      AfterRunStops(info, data, i, f.rest);
    }
  }

  // ----- a list in parts -----

  /** No run of the list goes on to the entry behind it. */
  ghost predicate Stops(info: map<Entry, Info>, data: map<Entry, Data>, f: Forest, next: Link) {
    match f
    case Empty => true
    case Node(e, kids, rest) =>
      && Stops(info, data, rest, next)
      && (kids.Empty? && AfterRun(info, data, e, Arrange(info, data, rest)).Empty? && next != Null ==>
            !TakesIn(info, data, e, next.entry))
  }

  lemma {:induction false} RunAppend(info: map<Entry, Info>, data: map<Entry, Data>, i: Entry, f: Forest, g: Forest)
    requires AfterRun(info, data, i, f).Empty? && g.Node? ==> !TakesIn(info, data, i, g.entry)
    ensures Run(info, data, i, Append(f, g)) == Run(info, data, i, f)
    ensures AfterRun(info, data, i, Append(f, g)) == Append(AfterRun(info, data, i, f), g)
  {
    if f.Node? && TakesIn(info, data, i, f.entry) {
      RunAppend(info, data, i, f.rest, g);
    }
  }

  lemma ArrangeHead(info: map<Entry, Info>, data: map<Entry, Data>, f: Forest)
    ensures Arrange(info, data, f).Node? <==> f.Node?
    ensures f.Node? ==> Arrange(info, data, f).entry == f.entry
  {
  }

  lemma {:induction false} ArrangeAppend(info: map<Entry, Info>, data: map<Entry, Data>, f: Forest, g: Forest)
    requires Stops(info, data, f, HeadOr(g, Null))
    ensures Arrange(info, data, Append(f, g)) == Append(Arrange(info, data, f), Arrange(info, data, g))
  {
    if f.Node? {
      ArrangeAppend(info, data, f.rest, g);
      ArrangeHead(info, data, g);
      if f.kids.Empty? {
        RunAppend(info, data, f.entry, Arrange(info, data, f.rest), Arrange(info, data, g));
      }
    }
  }

  lemma {:induction false} StopsAppend(info: map<Entry, Info>, data: map<Entry, Data>, f: Forest, g: Forest, next: Link)
    requires g.Node? && Stops(info, data, f, To(g.entry)) && Stops(info, data, g, next)
    ensures Stops(info, data, Append(f, g), next)
  {
    if f.Node? {
      StopsAppend(info, data, f.rest, g, next);
      ArrangeAppend(info, data, f.rest, g);
      ArrangeHead(info, data, g);
      if f.kids.Empty? {
        RunAppend(info, data, f.entry, Arrange(info, data, f.rest), Arrange(info, data, g));
      }
    }
  }

  // ----- the arrangement depends on the data of its entries only -----

  lemma {:induction false} RunFrame(info: map<Entry, Info>, a: map<Entry, Data>, b: map<Entry, Data>, i: Entry,
                                    f: Forest)
    requires a.Keys == b.Keys && SameData(a, b, Preorder(f)) && (i in a ==> b[i] == a[i])
    ensures Run(info, b, i, f) == Run(info, a, i, f) && AfterRun(info, b, i, f) == AfterRun(info, a, i, f)
  {
    if f.Node? {
      SameDataSplit(a, b, f);
      RunFrame(info, a, b, i, f.rest);
    }
  }

  lemma {:induction false} ArrangeFrame(info: map<Entry, Info>, a: map<Entry, Data>, b: map<Entry, Data>, f: Forest)
    requires a.Keys == b.Keys && SameData(a, b, Preorder(f))
    ensures Arrange(info, b, f) == Arrange(info, a, f)
  {
    if f.Node? {
      SameDataSplit(a, b, f);
      ArrangeFrame(info, a, b, f.rest);
      ArrangeFrame(info, a, b, f.kids);
      ArrangeOrder(info, a, f.rest);
      RunFrame(info, a, b, f.entry, Arrange(info, a, f.rest));
    }
  }

  lemma {:induction false} StopsFrame(info: map<Entry, Info>, a: map<Entry, Data>, b: map<Entry, Data>, f: Forest,
                                      next: Link)
    requires Stops(info, a, f, next) && a.Keys == b.Keys && SameData(a, b, Preorder(f))
    requires next != Null && next.entry in a ==> b[next.entry] == a[next.entry]
    ensures Stops(info, b, f, next)
  {
    if f.Node? {
      SameDataSplit(a, b, f);
      StopsFrame(info, a, b, f.rest, next);
      ArrangeFrame(info, a, b, f.rest);
      ArrangeOrder(info, a, f.rest);
      RunFrame(info, a, b, f.entry, Arrange(info, a, f.rest));
    }
  }

  // ----- lists that are finalized one entry after the other -----

  /** The entries `gone` were arranged as `done`, whatever follows `next`. */
  ghost predicate Arranged(info: map<Entry, Info>, data: map<Entry, Data>, gone: Forest, done: Forest, next: Link) {
    Arrange(info, data, gone) == done && Stops(info, data, gone, next)
  }

  lemma NothingArranged(info: map<Entry, Info>, data: map<Entry, Data>, next: Link)
    ensures Arranged(info, data, Empty, Empty, next)
  {
  }

  /** More entries are finalized, while the data of the first part stay. */
  lemma ArrangedGrows(info: map<Entry, Info>, a: map<Entry, Data>, b: map<Entry, Data>,
                      gone: Forest, done: Forest, taken: Forest, placed: Forest, next: Link)
    requires taken.Node? && Arranged(info, a, gone, done, To(taken.entry)) && Arranged(info, b, taken, placed, next)
    requires a.Keys == b.Keys && SameData(a, b, Preorder(gone))
             && (taken.entry in a ==> b[taken.entry] == a[taken.entry])
    ensures Arranged(info, b, Append(gone, taken), Append(done, placed), next)
  {
    ArrangeFrame(info, a, b, gone);
    StopsFrame(info, a, b, gone, To(taken.entry));
    ArrangeAppend(info, b, gone, taken);
    StopsAppend(info, b, gone, taken, next);
  }

  /** What one entry has become before its children are hoisted. */
  ghost predicate Collected(info: map<Entry, Info>, data: map<Entry, Data>, i: Entry, kids: Forest, taken: Forest,
                            kids': Forest, next: Link) {
    if kids.Node? then taken == Empty && Arrange(info, data, kids) == kids'
    else
      && Arranged(info, data, taken, kids', next) && AfterRun(info, data, i, kids').Empty?
      && (next != Null ==> !TakesIn(info, data, i, next.entry))
  }

  lemma CollectedArranged(info: map<Entry, Info>, data: map<Entry, Data>, i: Entry, kids: Forest, taken: Forest,
                          kids': Forest, next: Link)
    requires Collected(info, data, i, kids, taken, kids', next)
    ensures Arranged(info, data, Node(i, kids, taken), Node(i, Hoisted(info, kids'), Empty), next)
  {
    RunOrder(info, data, i, kids');
  }

  // ----- who ends up under whom -----

  /** `x` is a child of `p` in the forest. */
  ghost predicate Under(f: Forest, p: Entry, x: Entry) {
    match f
    case Empty => false
    case Node(e, kids, rest) => (e == p && x in TopEntries(kids)) || Under(kids, p, x) || Under(rest, p, x)
  }

  /** `x` was declared as a child of `p`, or is a later sibling that passes its test. */
  ghost predicate Owns(info: map<Entry, Info>, data: map<Entry, Data>, f: Forest, p: Entry, x: Entry) {
    match f
    case Empty => false
    case Node(e, kids, rest) =>
      || (e == p && (x in TopEntries(kids) || (kids.Empty? && x in TopEntries(rest) && TakesIn(info, data, e, x))))
      || Owns(info, data, kids, p, x) || Owns(info, data, rest, p, x)
  }

  predicate Textless(info: map<Entry, Info>, e: Entry) {
    e in info && !info[e].hasText
  }

  /** From each entry to its owner; all between the first and the last have no prompt text. */
  ghost predicate OwnerChain(info: map<Entry, Info>, data: map<Entry, Data>, f: Forest, c: seq<Entry>) {
    && |c| >= 2
    && (forall i {:trigger c[i]} | 0 <= i < |c| - 1 :: Owns(info, data, f, c[i + 1], c[i]))
    && (forall i | 0 < i < |c| - 1 :: Textless(info, c[i]))
  }

  /** The test that `x` passed is sound: `x` is off with the symbol of `p` or, as far as
      comparing with n is exact, with the condition of its prompt. */
  lemma TakesInSound(info: map<Entry, Info>, data: map<Entry, Data>, p: Entry, x: Entry)
    requires TakesIn(info, data, p, x)
    ensures var base := if info[p].prompt.None? then None else data[p].props[info[p].prompt.value].visible;
            var dep := if info[x].prompt.None? then data[x].dep else data[x].props[info[x].prompt.value].visible;
            SubmenuSound(info[p].sym.value, base, dep)
  {
    AcceptedSound(info[p].sym.value, PromptOf(info[p], data[p]), DepOf(info[x], data[x]));
  }

  lemma {:induction false} UnderAppend(f: Forest, g: Forest, p: Entry, x: Entry)
    ensures Under(Append(f, g), p, x) <==> Under(f, p, x) || Under(g, p, x)
  {
    if f.Node? {
      UnderAppend(f.rest, g, p, x);
    }
  }

  lemma {:induction false} TopsAppend(f: Forest, g: Forest)
    ensures TopEntries(Append(f, g)) == TopEntries(f) + TopEntries(g)
  {
    if f.Node? {
      TopsAppend(f.rest, g);
      ConcatAssociative([f.entry], TopEntries(f.rest), TopEntries(g));
    }
  }

  /** Hoisting makes no new children but those of the list itself. */
  lemma {:induction false} HoistedUnder(info: map<Entry, Info>, f: Forest, p: Entry, x: Entry)
    requires Under(Hoisted(info, f), p, x)
    ensures Under(f, p, x)
    decreases |Preorder(f)|
  {
    PreorderAppend(f.kids, f.rest);
    UnderAppend(f.kids, f.rest, p, x);
    if f.kids.Node? && Textless(info, f.entry) {
      HoistedUnder(info, Append(f.kids, f.rest), p, x);
    } else if Under(Hoisted(info, f.rest), p, x) {
      HoistedUnder(info, f.rest, p, x);
    }
  }

  /** An entry of the hoisted list was below an entry of the list, past entries
      without a prompt text. */
  ghost predicate HoistChain(info: map<Entry, Info>, f: Forest, c: seq<Entry>) {
    && c != [] && c[|c| - 1] in TopEntries(f)
    && (forall i {:trigger c[i]} | 0 <= i < |c| - 1 :: Under(f, c[i + 1], c[i]))
    && (forall i | 0 < i < |c| :: Textless(info, c[i]))
  }

  lemma {:induction false} HoistedTops(info: map<Entry, Info>, f: Forest, x: Entry) returns (c: seq<Entry>)
    requires x in TopEntries(Hoisted(info, f))
    ensures HoistChain(info, f, c) && c[0] == x
    decreases |Preorder(f)|
  {
    PreorderAppend(f.kids, f.rest);
    if x == f.entry {
      c := [x];
    } else if f.kids.Node? && Textless(info, f.entry) {
      var g := Append(f.kids, f.rest);
      c := HoistedTops(info, g, x);
      TopsAppend(f.kids, f.rest);
      forall i | 0 <= i < |c| - 1 ensures Under(f, c[i + 1], c[i]) {
        UnderAppend(f.kids, f.rest, c[i + 1], c[i]);
      }
      if c[|c| - 1] in TopEntries(f.kids) {
        c := c + [f.entry];
      }
    } else {
      c := HoistedTops(info, f.rest, x);
    }
  }

  lemma {:induction false} ArrangedTops(info: map<Entry, Info>, data: map<Entry, Data>, f: Forest, x: Entry)
    requires x in TopEntries(Arrange(info, data, f))
    ensures x in TopEntries(f)
  {
    if x != f.entry {
      var later := Arrange(info, data, f.rest);
      RunTops(info, data, f.entry, later, x);
      ArrangedTops(info, data, f.rest, x);
    }
  }

  lemma {:induction false} RunTops(info: map<Entry, Info>, data: map<Entry, Data>, i: Entry, f: Forest, x: Entry)
    ensures x in TopEntries(Run(info, data, i, f)) ==> x in TopEntries(f) && TakesIn(info, data, i, x)
    ensures x in TopEntries(AfterRun(info, data, i, f)) ==> x in TopEntries(f)
  {
    if f.Node? {
      RunTops(info, data, i, f.rest, x);
    }
  }

  lemma {:induction false} RunUnder(info: map<Entry, Info>, data: map<Entry, Data>, i: Entry, f: Forest, p: Entry,
                                    x: Entry)
    ensures Under(Run(info, data, i, f), p, x) || Under(AfterRun(info, data, i, f), p, x) ==> Under(f, p, x)
  {
    if f.Node? {
      RunUnder(info, data, i, f.rest, p, x);
    }
  }

  lemma ChainWider(info: map<Entry, Info>, data: map<Entry, Data>, f: Forest, g: Forest, c: seq<Entry>)
    requires f.Node? && (g == f.kids || g == f.rest) && OwnerChain(info, data, g, c)
    ensures OwnerChain(info, data, f, c)
  {
  }

  lemma ChainsJoin(info: map<Entry, Info>, data: map<Entry, Data>, f: Forest, c: seq<Entry>, d: seq<Entry>)
    requires OwnerChain(info, data, f, c) && OwnerChain(info, data, f, d) && c[|c| - 1] == d[0] && Textless(info, d[0])
    ensures OwnerChain(info, data, f, c + d[1..])
  {
    var e := c + d[1..];
    forall i | 0 <= i < |e| - 1 ensures Owns(info, data, f, e[i + 1], e[i]) {
      if i >= |c| - 1 {
        assert e[i] == d[i - (|c| - 1)] && e[i + 1] == d[i - (|c| - 1) + 1];
      }
    }
  }

  /** The arranged list under the first entry, before it is hoisted. */
  function Inner(info: map<Entry, Info>, data: map<Entry, Data>, f: Forest): Forest
    requires f.Node?
  {
    if f.kids.Node? then Arrange(info, data, f.kids) else Run(info, data, f.entry, Arrange(info, data, f.rest))
  }

  /** An entry ends up under its declared parent or the entry that took it in, or, past
      entries without a prompt text, under an owner of those. */
  lemma {:induction false} SitsUnderOwner(info: map<Entry, Info>, data: map<Entry, Data>, f: Forest, p: Entry, x: Entry)
    returns (c: seq<Entry>)
    requires Under(Arrange(info, data, f), p, x)
    ensures OwnerChain(info, data, f, c) && c[0] == x && c[|c| - 1] == p
    decreases f, 2, 0
  {
    var later, inner := Arrange(info, data, f.rest), Inner(info, data, f);
    RunUnder(info, data, f.entry, later, p, x);
    if p == f.entry && x in TopEntries(Hoisted(info, inner)) {
      var h := HoistedTops(info, inner, x);
      c := HoistedOwner(info, data, f, h);
    } else if Under(Hoisted(info, inner), p, x) {
      HoistedUnder(info, inner, p, x);
      c := InnerOwner(info, data, f, p, x);
    } else {
      c := SitsUnderOwner(info, data, f.rest, p, x);
      ChainWider(info, data, f, f.rest, c);
    }
  }

  lemma {:induction false} InnerOwner(info: map<Entry, Info>, data: map<Entry, Data>, f: Forest, p: Entry, x: Entry)
    returns (c: seq<Entry>)
    requires f.Node? && Under(Inner(info, data, f), p, x)
    ensures OwnerChain(info, data, f, c) && c[0] == x && c[|c| - 1] == p
    decreases f, 0, 0
  {
    if f.kids.Node? {
      c := SitsUnderOwner(info, data, f.kids, p, x);
      ChainWider(info, data, f, f.kids, c);
    } else {
      RunUnder(info, data, f.entry, Arrange(info, data, f.rest), p, x);
      c := SitsUnderOwner(info, data, f.rest, p, x);
      ChainWider(info, data, f, f.rest, c);
    }
  }

  /** An entry that was hoisted into the list of the first entry. */
  lemma {:induction false} HoistedOwner(info: map<Entry, Info>, data: map<Entry, Data>, f: Forest, h: seq<Entry>)
    returns (c: seq<Entry>)
    requires f.Node? && HoistChain(info, Inner(info, data, f), h)
    ensures OwnerChain(info, data, f, c) && c[0] == h[0] && c[|c| - 1] == f.entry
    decreases f, 1, |h|
  {
    if |h| == 1 {
      var later := Arrange(info, data, f.rest);
      if f.kids.Node? {
        ArrangedTops(info, data, f.kids, h[0]);
      } else {
        RunTops(info, data, f.entry, later, h[0]);
        ArrangedTops(info, data, f.rest, h[0]);
      }
      c := [h[0], f.entry];
    } else {
      assert Under(Inner(info, data, f), h[0 + 1], h[0]);
      var first := InnerOwner(info, data, f, h[1], h[0]);
      var others := HoistedOwner(info, data, f, h[1..]);
      ChainsJoin(info, data, f, first, others);
      c := first + others[1..];
    }
  }
}
