/** Boolean choice groups (symbol.c): the choice symbol, its members, and which
    member holds y.  The symbols outside the group are already evaluated. */
module Choice {
  import opened Tristate
  import opened Expr
  import opened ExprNormalForm
  import opened Kconfig
  import opened MenuState
  import opened Submenu
  import opened UserChanges

  /** `outer` gives the values of everything outside the group. */
  datatype Group = Group(choice: Symbol, members: seq<Symbol>, defs: map<Symbol, Def>, modules: Tri, outer: Valuation)

  /** The valuation with the choice symbol at `t`. */
  function With(g: Group, t: Tri): Valuation {
    Valuation((s: Symbol) => TriWith(g, t, s), (s: Symbol) => StringWith(g, t, s))
  }

  function TriWith(g: Group, t: Tri, s: Symbol): Tri {
    if s == g.choice then t else g.outer.tri(s)
  }

  function StringWith(g: Group, t: Tri, s: Symbol): string {
    if s == g.choice then TriString(t) else g.outer.str(s)
  }

  predicate AvoidsMembers(g: Group, e: Expr) {
    forall s | s in g.members :: !ContainsSymbol(e, s)
  }

  /** A condition of the choice symbol itself: it speaks of neither the choice nor
      its members. */
  predicate IsOuter(g: Group, e: ExprPtr) {
    e.Some? ==> AvoidsMembers(g, e.value) && !ContainsSymbol(e.value, g.choice)
  }

  /** A member's prompt condition: menu_finalize made it depend on the choice. */
  ghost predicate IsInner(g: Group, e: ExprPtr) {
    e.Some? && AvoidsMembers(g, e.value) && OffWithSymbol(e, g.choice)
  }

  ghost predicate ValidChoice(g: Group) {
    g.choice in g.defs && g.choice.Config? && g.choice.Type() == Boolean && IsOuter(g, g.defs[g.choice].revDep)
    && forall i {:trigger g.defs[g.choice].props[i]} | 0 <= i < |g.defs[g.choice].props| ::
         var p := g.defs[g.choice].props[i];
         && (p.kind == PromptProp || p.kind == DefaultProp ==> IsOuter(g, p.visible))
         && (p.kind == DefaultProp ==> DefaultSymbol(p.value).Some? && DefaultSymbol(p.value).value in g.members)
  }

  ghost predicate ValidMember(g: Group, s: Symbol) {
    s in g.defs && s.Config? && s.IsLogical() && s != g.choice
    && forall i {:trigger g.defs[s].props[i]} | 0 <= i < |g.defs[s].props| ::
         var p := g.defs[s].props[i];
         p.kind != DefaultProp && (p.kind == PromptProp ==> IsInner(g, p.visible))
  }

  /** What menu_finalize hands down to an entry below the choice symbol is n with it. */
  lemma InheritedFromChoice(choice: Symbol, sym: Option<Symbol>, a: Data, b: Data, i: nat)
    requires Inherits(sym, Some(Sym(choice)), a, b) && i < |b.props| && choice.IsLogical()
    ensures OffWithSymbol(b.dep, choice) && OffWithSymbol(b.props[i].visible, choice) && b.props[i].visible.Some?
  {
    assert Restricted(sym, b.dep, a.props[i], b.props[i]);
    forall v: Valuation | WellFormed(v) && v.tri(choice) == NO
      ensures EvalPtr(b.dep, v) == NO && EvalPtr(b.props[i].visible, v) == NO
    {
      assert EvalPtr(Some(Sym(choice)), v) == NO;
    }
    var v := ValuationExists((s: Symbol) => NO);
    assert v.tri(choice) == NO;
  }

  /** A boolean choice whose members have no defaults. */
  ghost predicate ValidGroup(g: Group) {
    && WellFormed(g.outer) && ValidChoice(g) && g.choice !in g.members
    && (forall s {:trigger ValidMember(g, s)} | s in g.members :: ValidMember(g, s))
    && forall i, j | 0 <= i < j < |g.members| :: g.members[i] != g.members[j]
  }

  /** What the user set: SYMBOL_DEF_USER, the tristates that go with it, and the
      member that was last chosen. */
  datatype User = User(has: set<Symbol>, def: map<Symbol, Tri>, val: Option<Symbol>)

  function At(m: map<Symbol, Tri>, s: Symbol): Tri {
    if s in m then m[s] else NO
  }

  // ----- reference semantics -----

  ghost function VisibleIn(g: Group, s: Symbol, v: Valuation): Tri {
    if s in g.defs then PromoteVisible(s, g.modules, Prompts(g.defs[s].props, |g.defs[s].props|, v)) else NO
  }

  /** The value of the choice symbol before a member is looked for. */
  ghost function ChoiceTri(g: Group, u: User): Tri
    requires g.choice in g.defs
  {
    var v := With(g, NO);
    var visible := VisibleIn(g, g.choice, v);
    var t := if visible != NO && g.choice in u.has then And(At(u.def, g.choice), visible) else NO;
    PromoteBoolean(g.choice, g.modules,
                   Or(t, PromoteBoolean(g.choice, g.modules, Condition(g.defs[g.choice].revDep, NO, v))))
  }

  ghost predicate Eligible(g: Group, s: Symbol) {
    VisibleIn(g, s, With(g, YES)) != NO
  }

  /** The first default of the choice that applies and names a visible member. */
  ghost function FirstDefault(g: Group, i: nat): Option<Symbol>
    requires g.choice in g.defs && i <= |g.defs[g.choice].props|
    decreases |g.defs[g.choice].props| - i
  {
    var props := g.defs[g.choice].props;
    if i == |props| then None
    else if Applies(g, props[i]) then DefaultSymbol(props[i].value)
    else FirstDefault(g, i + 1)
  }

  ghost predicate Applies(g: Group, p: Prop) {
    p.kind == DefaultProp && Condition(p.visible, YES, With(g, YES)) != NO
    && DefaultSymbol(p.value).Some? && Eligible(g, DefaultSymbol(p.value).value)
  }

  ghost function FirstMember(g: Group, i: nat): Option<Symbol>
    requires i <= |g.members|
    decreases |g.members| - i
  {
    if i == |g.members| then None
    else if Eligible(g, g.members[i]) then Some(g.members[i])
    else FirstMember(g, i + 1)
  }

  ghost function DefaultPick(g: Group): Option<Symbol>
    requires g.choice in g.defs
  {
    var d := FirstDefault(g, 0);
    if d.Some? then d else FirstMember(g, 0)
  }

  /** The member that a choice at y chooses. */
  ghost function Pick(g: Group, user: Option<Symbol>): Option<Symbol>
    requires g.choice in g.defs
  {
    if user.Some? && Eligible(g, user.value) then user else DefaultPick(g)
  }

  /** The value of the choice symbol: n if there is nothing to choose. */
  ghost function FinalTri(g: Group, u: User): Tri
    requires g.choice in g.defs
  {
    var t := ChoiceTri(g, u);
    if t == YES && Pick(g, u.val).None? then NO else t
  }

  ghost function FinalPick(g: Group, u: User): Option<Symbol>
    requires g.choice in g.defs
  {
    if ChoiceTri(g, u) == YES then Pick(g, u.val) else None
  }

  ghost function MemberTri(g: Group, u: User, s: Symbol): Tri
    requires g.choice in g.defs
  {
    var visible := VisibleIn(g, s, With(g, FinalTri(g, u)));
    if visible == YES then (if FinalPick(g, u) == Some(s) then YES else NO)
    else PromoteBoolean(s, g.modules, if visible != NO && s in u.has then And(At(u.def, s), visible) else NO)
  }

  // ----- what a choice has in common with other symbols -----

  function UserIn(u: User, s: Symbol): Option<UserValue> {
    if s in u.has then Some(UserValue(At(u.def, s), "")) else None
  }

  /** The group as a part of a symbol table. */
  function GroupTable(g: Group): Table {
    Table(g.defs, g.modules, map[])
  }

  lemma VisibleAsSymbol(g: Group, s: Symbol, v: Valuation)
    requires s in g.defs
    ensures VisibleIn(g, s, v) == VisibleOf(GroupTable(g), v, s)
  {
  }

  /** The tristate of the choice is that of any symbol without defaults. */
  lemma ChoiceAsSymbol(g: Group, u: User)
    requires ValidChoice(g)
    ensures var k, v := GroupTable(g), With(g, NO);
            ChoiceTri(g, u) == LogicalValue(g.choice, g.modules, VisibleOf(k, v, g.choice), UserIn(u, g.choice), NO,
                                            RevOf(k, v, g.choice))
  {
  }

  /** So is that of a member that is not visible with y, and that nothing selects. */
  lemma MemberAsSymbol(g: Group, u: User, s: Symbol)
    requires ValidChoice(g) && ValidMember(g, s)
    ensures var visible := VisibleOf(GroupTable(g), With(g, FinalTri(g, u)), s);
            visible != YES ==> MemberTri(g, u, s) == LogicalValue(s, g.modules, visible, UserIn(u, s), NO, NO)
  {
  }

  /** The range of a member is that of any symbol that nothing selects, but that n is out
      of it for a member that is visible with y. */
  lemma RangeAsSymbol(g: Group, s: Symbol, f: Facts, val: Tri)
    requires s.IsLogical() && f.rev == NO
    ensures InRange(g, s, f.visible, val)
       <==> WithinRange(s, g.modules, f, val) && (f.visible == YES ==> val == YES)
  {
  }

  // ----- exactly one member -----

  ghost predicate IsFirstMember(g: Group, i: nat, j: nat, p: Option<Symbol>)
    requires i <= j < |g.members|
  {
    p == Some(g.members[j]) && Eligible(g, g.members[j]) && forall h | i <= h < j :: !Eligible(g, g.members[h])
  }

  ghost predicate IsFirstDefault(g: Group, i: nat, j: nat, p: Option<Symbol>)
    requires g.choice in g.defs && i <= j < |g.defs[g.choice].props|
  {
    var props := g.defs[g.choice].props;
    p == DefaultSymbol(props[j].value) && Applies(g, props[j]) && forall h | i <= h < j :: !Applies(g, props[h])
  }

  lemma {:induction false} FirstMemberFrom(g: Group, i: nat)
    requires i <= |g.members|
    ensures FirstMember(g, i).None? ==> forall j | i <= j < |g.members| :: !Eligible(g, g.members[j])
    ensures FirstMember(g, i).Some? ==> exists j :: i <= j < |g.members| && IsFirstMember(g, i, j, FirstMember(g, i))
    decreases |g.members| - i
  {
    if i < |g.members| {
      if Eligible(g, g.members[i]) {
        assert IsFirstMember(g, i, i, FirstMember(g, i));
      } else {
        FirstMemberFrom(g, i + 1);
        if FirstMember(g, i).Some? {
          var j :| i + 1 <= j < |g.members| && IsFirstMember(g, i + 1, j, FirstMember(g, i + 1));
          assert IsFirstMember(g, i, j, FirstMember(g, i));
        }
      }
    }
  }

  lemma {:induction false} FirstDefaultFrom(g: Group, i: nat)
    requires g.choice in g.defs && i <= |g.defs[g.choice].props|
    ensures var props := g.defs[g.choice].props;
            && (FirstDefault(g, i).None? ==> forall j | i <= j < |props| :: !Applies(g, props[j]))
            && (FirstDefault(g, i).Some? ==>
                  exists j :: i <= j < |props| && IsFirstDefault(g, i, j, FirstDefault(g, i)))
    decreases |g.defs[g.choice].props| - i
  {
    var props := g.defs[g.choice].props;
    if i < |props| {
      if Applies(g, props[i]) {
        assert IsFirstDefault(g, i, i, FirstDefault(g, i));
      } else {
        FirstDefaultFrom(g, i + 1);
        if FirstDefault(g, i).Some? {
          var j :| i + 1 <= j < |props| && IsFirstDefault(g, i + 1, j, FirstDefault(g, i + 1));
          assert IsFirstDefault(g, i, j, FirstDefault(g, i));
        }
      }
    }
  }

  lemma PickIsMember(g: Group, user: Option<Symbol>)
    requires ValidGroup(g) && (user.Some? ==> user.value in g.members)
    ensures Pick(g, user).Some? ==> Pick(g, user).value in g.members && Eligible(g, Pick(g, user).value)
    ensures Pick(g, user).None? <==> forall s | s in g.members :: !Eligible(g, s)
  {
    FirstMemberFrom(g, 0);
    FirstDefaultFrom(g, 0);
    if Pick(g, user).None? {
      forall s | s in g.members ensures !Eligible(g, s) {
        var j :| 0 <= j < |g.members| && g.members[j] == s;
      }
    }
  }

  /** A default applies if its condition is not n and the member it names is visible. */
  lemma AppliesIff(g: Group, p: Prop)
    ensures Applies(g, p) <==> InForce(p, With(g, YES)) && exists s :: p.value == Some(Sym(s)) && Eligible(g, s)
  {
  }

  /** What is chosen: the user's member if it is visible, else the first default
      that names a visible member, else the first visible member. */
  lemma PickOrder(g: Group, user: Option<Symbol>)
    requires ValidGroup(g) && (user.Some? ==> user.value in g.members)
    ensures var p, props := Pick(g, user), g.defs[g.choice].props;
            if user.Some? && Eligible(g, user.value) then p == user
            else if exists j :: 0 <= j < |props| && Applies(g, props[j]) then
              exists j :: 0 <= j < |props| && IsFirstDefault(g, 0, j, p)
            else if exists s :: s in g.members && Eligible(g, s) then
              exists j :: 0 <= j < |g.members| && IsFirstMember(g, 0, j, p)
            else p == None
  {
    FirstMemberFrom(g, 0);
    FirstDefaultFrom(g, 0);
    var props := g.defs[g.choice].props;
    if FirstDefault(g, 0).Some? && !(user.Some? && Eligible(g, user.value)) {
      var j :| 0 <= j < |props| && IsFirstDefault(g, 0, j, FirstDefault(g, 0));
      assert IsFirstDefault(g, 0, j, Pick(g, user));
    }
  }

  lemma WithWellFormed(g: Group, t: Tri)
    requires ValidGroup(g) && t != MOD
    ensures WellFormed(With(g, t)) && With(g, t).tri(g.choice) == t
  {
  }

  lemma {:induction false} PromptsOff(g: Group, s: Symbol, i: nat)
    requires ValidGroup(g) && s in g.members && s in g.defs && i <= |g.defs[s].props|
    ensures Prompts(g.defs[s].props, i, With(g, NO)) == NO
  {
    assert ValidMember(g, s);
    if i > 0 {
      PromptsOff(g, s, i - 1);
      WithWellFormed(g, NO);
    }
  }

  /** No member is visible without the choice. */
  lemma OffWithoutChoice(g: Group, s: Symbol)
    requires ValidGroup(g) && s in g.members
    ensures VisibleIn(g, s, With(g, NO)) == NO
  {
    assert ValidMember(g, s);
    PromptsOff(g, s, |g.defs[s].props|);
  }

  lemma ChoiceIsBoolean(g: Group, u: User)
    requires ValidGroup(g)
    ensures ChoiceTri(g, u) != MOD
  {
  }

  /** A member holds y exactly if it is the chosen one and is visible with y. */
  lemma MemberYes(g: Group, u: User, s: Symbol)
    requires ValidGroup(g) && s in g.members && (u.val.Some? ==> u.val.value in g.members)
    ensures MemberTri(g, u, s) == YES
       <==> FinalPick(g, u) == Some(s) && VisibleIn(g, s, With(g, YES)) == YES
  {
    ChoiceIsBoolean(g, u);
    OffWithoutChoice(g, s);
    PickIsMember(g, u.val);
    assert ValidMember(g, s);
  }

  /** A choice at y with a visible member: the members at y are exactly the chosen
      one, provided that its visibility is y; otherwise no member is at y. */
  lemma ExactlyOne(g: Group, u: User)
    requires ValidGroup(g) && (u.val.Some? ==> u.val.value in g.members)
    requires ChoiceTri(g, u) == YES && exists s :: s in g.members && Eligible(g, s)
    ensures FinalTri(g, u) == YES && Pick(g, u.val).Some? && Pick(g, u.val).value in g.members
    ensures (exists s :: s in g.members && MemberTri(g, u, s) == YES)
       <==> VisibleIn(g, Pick(g, u.val).value, With(g, YES)) == YES
    ensures forall s | s in g.members && MemberTri(g, u, s) == YES :: s == Pick(g, u.val).value
  {
    PickIsMember(g, u.val);
    var p := Pick(g, u.val).value;
    MemberYes(g, u, p);
    forall s | s in g.members && MemberTri(g, u, s) == YES
      ensures s == p
    {
      MemberYes(g, u, s);
    }
  }

  /** Without modules, or with boolean members, visible means visible with y. */
  lemma VisibleIsYes(g: Group, s: Symbol)
    requires (g.modules == NO || s.Type() == Boolean) && Eligible(g, s)
    ensures VisibleIn(g, s, With(g, YES)) == YES
  {
  }

  /** So without modules, or with boolean members, a choice at y with a visible member
      has exactly one member at y. */
  lemma ExactlyOneYes(g: Group, u: User) returns (s: Symbol)
    requires ValidGroup(g) && (u.val.Some? ==> u.val.value in g.members)
    requires ChoiceTri(g, u) == YES && exists m :: m in g.members && Eligible(g, m)
    requires g.modules == NO || forall m | m in g.members :: m.Type() == Boolean
    ensures s in g.members && Pick(g, u.val) == Some(s)
    ensures forall m | m in g.members :: MemberTri(g, u, m) == YES <==> m == s
  {
    ExactlyOne(g, u);
    PickIsMember(g, u.val);
    s := Pick(g, u.val).value;
    VisibleIsYes(g, s);
    MemberYes(g, u, s);
  }

  /** Choosing a member that is visible with y keeps the choice at y and moves the
      y to that member, and to it alone. */
  lemma ChosenMemberIsYes(g: Group, u: User, u': User, s: Symbol)
    requires ValidGroup(g) && s in g.members && ChoiceTri(g, u) == YES && VisibleIn(g, s, With(g, YES)) == YES
    requires u'.val == Some(s) && g.choice in u'.has && At(u'.def, g.choice) == At(u.def, g.choice)
    ensures ChoiceTri(g, u') == YES && FinalPick(g, u') == Some(s)
    ensures forall m | m in g.members :: MemberTri(g, u', m) == YES <==> m == s
  {
    forall m | m in g.members
      ensures MemberTri(g, u', m) == YES <==> m == s
    {
      MemberYes(g, u', m);
    }
  }

  /** What the user set once `val` was accepted for the member `s`: choosing a member
      makes it the user's choice, and the choice and its visible members count as set
      by the user. */
  function Accept(g: Group, u: User, visible: map<Symbol, Tri>, s: Symbol, val: Tri): User {
    var others := if val != YES then {} else {g.choice} + set m | m in g.members && At(visible, m) != NO;
    User(u.has + {s} + others, u.def[s := val], if val == YES then Some(s) else u.val)
  }

  /** Choosing a member is honoured: it alone is at y, and as all visible members count as
      set by the user, the next evaluation lets the user's choice stand. */
  lemma ChoosingIsHonoured(g: Group, u: User, visible: map<Symbol, Tri>, s: Symbol)
    requires ValidGroup(g) && s in g.members && ChoiceTri(g, u) == YES && VisibleIn(g, s, With(g, YES)) == YES
    requires forall m | m in g.members :: At(visible, m) == VisibleIn(g, m, With(g, YES))
    ensures var u' := Accept(g, u, visible, s, YES);
            && ChoiceTri(g, u') == YES && FinalPick(g, u') == Some(s)
            && (forall m | m in g.members :: MemberTri(g, u', m) == YES <==> m == s)
            && g.choice in u'.has && forall m | m in g.members && Eligible(g, m) :: m in u'.has
  {
    var u' := Accept(g, u, visible, s, YES);
    assert g.choice != s;
    ChosenMemberIsYes(g, u, u', s);
  }

  /** So does confirming the member that holds y. */
  lemma ConfirmedMemberKept(g: Group, u: User, u': User, s: Symbol)
    requires ValidGroup(g) && s in g.members && (u.val.Some? ==> u.val.value in g.members) && MemberTri(g, u, s) == YES
    requires u'.val == Some(s) && g.choice in u'.has && At(u'.def, g.choice) == At(u.def, g.choice)
    ensures forall m | m in g.members :: MemberTri(g, u', m) == YES <==> MemberTri(g, u, m) == YES
  {
    MemberYes(g, u, s);
    ChosenMemberIsYes(g, u, u', s);
    forall m | m in g.members
      ensures MemberTri(g, u, m) == YES <==> m == s
    {
      MemberYes(g, u, m);
    }
  }

  const CHOICE: Symbol := Config("CHOICE", Boolean)
  const MEMBER: Symbol := Config("MEMBER", TristateType)
  const MEMBER_CONDITION: Expr := Bin(AndOp, Sym(CHOICE), Sym(ConstMod))

  /** A choice that is always at y, and one tristate member that depends on m. */
  function SmallGroup(outer: Valuation): Group {
    Group(CHOICE, [MEMBER],
          map[CHOICE := Def([Prop(PromptProp, None, None)], None, Some(Sym(ConstMod))),
              MEMBER := Def([Prop(PromptProp, Some(MEMBER_CONDITION), None)], None, None)],
          YES, outer)
  }

  lemma SmallGroupValid(outer: Valuation)
    requires WellFormed(outer)
    ensures ValidGroup(SmallGroup(outer))
  {
    var g := SmallGroup(outer);
    forall v: Valuation | WellFormed(v) && v.tri(CHOICE) == NO
      ensures EvalPtr(Some(MEMBER_CONDITION), v) == NO
    {
      assert Eval(Sym(CHOICE), v) == NO;
    }
    assert g.defs[MEMBER].props[0].visible == Some(MEMBER_CONDITION);
    assert ValidMember(g, MEMBER);
  }

  lemma SmallGroupVisible(outer: Valuation)
    requires WellFormed(outer)
    ensures var g := SmallGroup(outer);
            VisibleIn(g, MEMBER, With(g, YES)) == MOD && VisibleIn(g, CHOICE, With(g, NO)) == YES
  {
    var g := SmallGroup(outer);
    assert Eval(Sym(CHOICE), With(g, YES)) == YES && Eval(Sym(ConstMod), With(g, YES)) == MOD;
    assert Prompts(g.defs[MEMBER].props, 0, With(g, YES)) == NO;
    assert Prompts(g.defs[CHOICE].props, 0, With(g, NO)) == NO;
  }

  lemma SmallGroupChoice(outer: Valuation, u: User)
    requires WellFormed(outer)
    ensures ChoiceTri(SmallGroup(outer), u) == YES
  {
    assert Condition(Some(Sym(ConstMod)), NO, With(SmallGroup(outer), NO)) == MOD;
  }

  lemma SmallGroupMember(outer: Valuation, u: User)
    requires WellFormed(outer) && u.val.None?
    ensures MemberTri(SmallGroup(outer), u, MEMBER) != YES
  {
    var g := SmallGroup(outer);
    SmallGroupValid(outer);
    SmallGroupVisible(outer);
    SmallGroupChoice(outer, u);
    MemberYes(g, u, MEMBER);
  }

  /** With modules, a tristate member may be visible with m only; a choice at y then
      has a visible member and none at y. */
  lemma NoMemberYes() returns (g: Group, u: User)
    ensures ValidGroup(g) && u.val.None? && ChoiceTri(g, u) == YES
    ensures exists s :: s in g.members && Eligible(g, s)
    ensures forall s | s in g.members :: MemberTri(g, u, s) != YES
  {
    var outer := ValuationExists((s: Symbol) => NO);
    g := SmallGroup(outer);
    u := User({}, map[], None);
    SmallGroupValid(outer);
    SmallGroupVisible(outer);
    SmallGroupChoice(outer, u);
    SmallGroupMember(outer, u);
    assert MEMBER in g.members && Eligible(g, MEMBER);
  }

  // ----- the evaluator -----

  lemma {:induction false} WithoutChoice(g: Group, e: Expr, a: Tri, b: Tri)
    requires !ContainsSymbol(e, g.choice)
    ensures Eval(e, With(g, a)) == Eval(e, With(g, b))
  {
    match e
    case Not(x) => WithoutChoice(g, x, a, b);
    case Bin(_, l, r) =>
      WithoutChoice(g, l, a, b);
      WithoutChoice(g, r, a, b);
    case _ =>
  }

  /** A member's condition that is not n speaks of the choice. */
  lemma InnerContains(g: Group, e: ExprPtr, t: Tri)
    requires ValidGroup(g) && IsInner(g, e) && EvalPtr(e, With(g, t)) != NO
    ensures ContainsSymbol(e.value, g.choice)
  {
    WithWellFormed(g, NO);
    if !ContainsSymbol(e.value, g.choice) {
      WithoutChoice(g, e.value, t, NO);
    }
  }

  /** The symbol records of a group: SYMBOL_VALID, the computed visibility and
      tristate, the member the choice points to, and the user's values. */
  datatype Records = Records(valid: set<Symbol>, visible: map<Symbol, Tri>, tri: map<Symbol, Tri>, val: Option<Symbol>,
                             user: User)

  class ChoiceEvaluator {
    const g: Group
    var st: Records
    /** The user's values when the cache was last cleared. */
    ghost var base: User

    ghost predicate Valid()
      reads this
    {
      && ValidGroup(g) && (base.val.Some? ==> base.val.value in g.members)
      && (g.choice !in st.valid ==> st.user == base)
      && (st.user == base || st.user == base.(has := base.has - {g.choice}))
    }

    /** Nothing is evaluated yet. */
    constructor (g: Group, user: User)
      requires ValidGroup(g) && (user.val.Some? ==> user.val.value in g.members)
      ensures Valid() && this.g == g && base == user && st == Records({}, map[], map[], None, user)
    {
      this.g := g;
      st := Records({}, map[], map[], None, user);
      base := user;
    }

    ghost function Final(): Tri
      reads this
      requires Valid()
    {
      FinalTri(g, base)
    }

    /** The choice is evaluated. */
    ghost predicate Done()
      reads this
      requires Valid()
    {
      g.choice in st.valid && At(st.tri, g.choice) == Final() && st.val == FinalPick(g, base)
    }

    /** Expressions are read with the choice at `x`: at its final value, unless it
        is just looking for its member. */
    ghost predicate Reads(x: Tri)
      reads this
      requires Valid()
    {
      if g.choice in st.valid then At(st.tri, g.choice) == x else x == Final()
    }

    /** A member that is valid holds what it must hold. */
    ghost predicate Settled(s: Symbol)
      reads this
      requires Valid()
    {
      s in g.members && s in st.valid ==> At(st.tri, s) == MemberTri(g, base, s)
    }

    /** Nothing changed but that the choice was evaluated if it had not been. */
    twostate predicate Forced()
      reads this
      requires old(Valid()) && Valid()
    {
      && base == old(base)
      && (forall s | s in g.members :: At(st.tri, s) == At(old(st.tri), s))
      && (st == old(st) || (g.choice !in old(st.valid) && st.valid == old(st.valid) + {g.choice} && Done()))
    }

    /** expr_calc_value, which evaluates the choice where the expression names it. */
    method CalcExpr(e: Expr, ghost x: Tri) returns (t: Tri)
      requires Valid() && Reads(x) && AvoidsMembers(g, e)
      modifies this`st
      ensures Valid() && Reads(x) && Forced()
      ensures t == Eval(e, With(g, x))
      ensures ContainsSymbol(e, g.choice) ==> g.choice in st.valid
      ensures !ContainsSymbol(e, g.choice) ==> st == old(st)
      decreases if ContainsSymbol(e, g.choice) && g.choice !in st.valid then 9 else 2, e
    {
      match e {
        case Sym(s) =>
          if s == g.choice {
            CalcChoiceValue();
            t := At(st.tri, s);
          } else {
            t := g.outer.tri(s);
          }
        case Not(a) =>
          t := CalcExpr(a, x);
          t := Complement(t);
        case Bin(op, l, r) =>
          var t1 := CalcExpr(l, x);
          var t2 := CalcExpr(r, x);
          t := Apply(op, t1, t2);
        case Equal(a, b) =>
          var same := SameText(a, b, x);
          t := if same then YES else NO;
        case Unequal(a, b) =>
          var same := SameText(a, b, x);
          t := if same then NO else YES;
      }
    }

    method SameText(a: Symbol, b: Symbol, ghost x: Tri) returns (same: bool)
      requires Valid() && Reads(x) && a !in g.members && b !in g.members
      modifies this`st
      ensures Valid() && Reads(x) && Forced()
      ensures same <==> With(g, x).str(a) == With(g, x).str(b)
      ensures a == g.choice || b == g.choice ==> g.choice in st.valid
      ensures a != g.choice && b != g.choice ==> st == old(st)
      decreases if (a == g.choice || b == g.choice) && g.choice !in st.valid then 8 else 1
    {
      if a == g.choice || b == g.choice {
        CalcChoiceValue();
      }
      var s := if a == g.choice then TriString(At(st.tri, a)) else g.outer.str(a);
      var t := if b == g.choice then TriString(At(st.tri, b)) else g.outer.str(b);
      same := s == t;
    }

    /** The prompts of a symbol of the group. */
    method CalcPrompts(s: Symbol, ghost x: Tri) returns (t: Tri)
      requires Valid() && Reads(x) && (s in g.members || (s == g.choice && s in st.valid))
      modifies this`st
      ensures Valid() && Reads(x) && Forced()
      ensures s in g.defs && t == Prompts(g.defs[s].props, |g.defs[s].props|, With(g, x))
      ensures s in g.members ==> t == NO || g.choice in st.valid
      ensures g.choice in old(st.valid) ==> st == old(st)
      decreases if g.choice in st.valid then 3 else 10
    {
      assert s in g.members ==> ValidMember(g, s);
      var props := g.defs[s].props;
      t := NO;
      var i := 0;
      while i < |props|
        invariant 0 <= i <= |props| && Valid() && Reads(x) && Forced()
        invariant t == Prompts(props, i, With(g, x))
        invariant s in g.members ==> t == NO || g.choice in st.valid
        invariant g.choice in old(st.valid) ==> st == old(st)
      {
        PromptsNext(props, i, With(g, x));
        if props[i].kind == PromptProp {
          var c := CalcPrompt(s, props[i], x);
          t := Or(t, c);
        }
        i := i + 1;
      }
    }

    /** One prompt. */
    method CalcPrompt(s: Symbol, p: Prop, ghost x: Tri) returns (t: Tri)
      requires Valid() && Reads(x) && (s in g.members || (s == g.choice && s in st.valid))
      requires s in g.defs && p in g.defs[s].props && p.kind == PromptProp
      modifies this`st
      ensures Valid() && Reads(x) && Forced()
      ensures t == Condition(p.visible, YES, With(g, x))
      ensures s in g.members ==> t == NO || g.choice in st.valid
      ensures g.choice in old(st.valid) ==> st == old(st)
      decreases if g.choice in st.valid then 3 else 10, 0
    {
      assert s in g.members ==> ValidMember(g, s);
      t := YES;
      if p.visible.Some? {
        t := CalcExpr(p.visible.value, x);
      }
      if s in g.members && t != NO {
        InnerContains(g, p.visible, x);
      }
    }

    /** sym_calc_visibility as far as it concerns a member. */
    method CalcVisibility(s: Symbol, ghost x: Tri)
      requires Valid() && Reads(x) && s in g.members
      modifies this`st
      ensures Valid() && Reads(x) && At(st.visible, s) == VisibleIn(g, s, With(g, x))
      ensures base == old(base)
      ensures forall m | m in g.members :: At(st.tri, m) == At(old(st.tri), m)
      ensures st == old(st).(visible := old(st.visible)[s := At(st.visible, s)])
              || (g.choice !in old(st.valid) && st.valid == old(st.valid) + {g.choice} && Done())
      ensures At(st.visible, s) == NO || g.choice in st.valid
      decreases if g.choice in st.valid then 4 else 11
    {
      var tri := CalcPrompts(s, x);
      if tri == MOD && (s.Type() != TristateType || g.modules == NO) {
        tri := YES;
      }
      st := st.(visible := st.visible[s := tri]);
    }

    /** The tristate of the choice symbol, before a member is looked for. */
    method CalcChoiceTri() returns (newval: Tri)
      requires Valid() && g.choice in st.valid && st.user == base
      modifies this`st
      ensures Valid() && newval == ChoiceTri(g, base)
      ensures st == old(st).(visible := st.visible)
      decreases 4
    {
      var c := g.choice;
      ghost var x := At(st.tri, c);
      var visible := CalcPrompts(c, x);
      OuterPrompts(g, |g.defs[c].props|, x);
      if visible == MOD {
        visible := YES;
      }
      var rev := CalcChoiceRev(x);
      st := st.(visible := st.visible[c := visible]);
      newval := if visible != NO && c in st.user.has then And(At(st.user.def, c), visible) else NO;
      newval := Or(newval, rev);
      if newval == MOD {
        newval := YES;
      }
    }

    /** The reverse dependency of the choice symbol. */
    method CalcChoiceRev(ghost x: Tri) returns (rev: Tri)
      requires Valid() && Reads(x) && g.choice in st.valid
      modifies this`st
      ensures Valid() && st == old(st)
      ensures rev == PromoteBoolean(g.choice, g.modules, Condition(g.defs[g.choice].revDep, NO, With(g, NO)))
      decreases 3
    {
      rev := NO;
      var e := g.defs[g.choice].revDep;
      if e.Some? {
        rev := CalcExpr(e.value, x);
        WithoutChoice(g, e.value, x, NO);
      }
      if rev == MOD {
        rev := YES;
      }
    }

    /** sym_calc_value for the choice symbol. */
    method CalcChoiceValue()
      requires Valid()
      modifies this`st
      ensures Valid() && Forced() && g.choice in st.valid
      decreases if g.choice in st.valid then 0 else 7
    {
      if g.choice in st.valid {
        return;
      }
      st := st.(valid := st.valid + {g.choice});
      var newval := CalcChoiceTri();
      st := st.(tri := st.tri[g.choice := newval], val := None);
      if newval == YES {
        CalcChoice();
      }
    }

    method VisibleWithChoice(s: Symbol)
      requires Valid() && g.choice in st.valid && At(st.tri, g.choice) == YES && s in g.members
      modifies this`st
      ensures Valid() && st == old(st).(visible := old(st.visible)[s := VisibleIn(g, s, With(g, YES))])
      decreases 5, 0
    {
      CalcVisibility(s, YES);
    }

    /** The visibility of all members; `keep` if each visible one has a user value. */
    method CalcMembers() returns (keep: bool)
      requires Valid() && g.choice in st.valid && At(st.tri, g.choice) == YES
      modifies this`st
      ensures Valid() && st == old(st).(visible := st.visible)
      ensures forall s | s in g.members :: At(st.visible, s) == VisibleIn(g, s, With(g, YES))
      ensures keep <==> forall s | s in g.members && Eligible(g, s) :: s in st.user.has
      decreases 5, 1
    {
      keep := true;
      var i := 0;
      while i < |g.members|
        invariant 0 <= i <= |g.members| && Valid() && st == old(st).(visible := st.visible)
        invariant forall j | 0 <= j < i :: At(st.visible, g.members[j]) == VisibleIn(g, g.members[j], With(g, YES))
        invariant keep <==> forall j | 0 <= j < i && Eligible(g, g.members[j]) :: g.members[j] in st.user.has
      {
        VisibleWithChoice(g.members[i]);
        if At(st.visible, g.members[i]) != NO && g.members[i] !in st.user.has {
          keep := false;
        }
        i := i + 1;
      }
    }

    /** sym_calc_choice: the visibility of all members, and which one to choose.
        The user's value of the choice counts only while all visible members have
        one too. */
    method CalcChoice()
      requires Valid() && g.choice in st.valid && At(st.tri, g.choice) == YES && ChoiceTri(g, base) == YES
      modifies this`st
      ensures Valid() && Done() && st.valid == old(st.valid)
      ensures forall s | s in g.members :: At(st.tri, s) == At(old(st.tri), s)
      ensures st.user == if forall s | s in g.members && Eligible(g, s) :: s in old(st.user).has then old(st.user)
                         else old(st.user).(has := old(st.user).has - {g.choice})
      decreases 6
    {
      var keep := CalcMembers();
      if !keep {
        st := st.(user := st.user.(has := st.user.has - {g.choice}));
      }
      Choose();
    }

    /** Which member to choose, once the visibility of all is known. */
    method Choose()
      requires Valid() && g.choice in st.valid && At(st.tri, g.choice) == YES && ChoiceTri(g, base) == YES
      requires forall s | s in g.members :: At(st.visible, s) == VisibleIn(g, s, With(g, YES))
      modifies this`st
      ensures Valid() && Done() && st.valid == old(st.valid) && st.user == old(st.user)
      ensures forall s | s in g.members :: At(st.tri, s) == At(old(st.tri), s)
      decreases 5
    {
      var val := st.user.val;
      if val.None? || At(st.visible, val.value) == NO {
        val := ChoiceDefault();
        if val.None? {
          st := st.(tri := st.tri[g.choice := NO]);
        }
      }
      st := st.(val := val);
    }

    /** sym_choice_default. */
    method ChoiceDefault() returns (d: Option<Symbol>)
      requires Valid() && g.choice in st.valid && At(st.tri, g.choice) == YES
      requires forall s | s in g.members :: At(st.visible, s) == VisibleIn(g, s, With(g, YES))
      modifies this`st
      ensures Valid() && st == old(st) && d == DefaultPick(g)
      decreases 4
    {
      var props := g.defs[g.choice].props;
      var i := 0;
      while i < |props|
        invariant 0 <= i <= |props| && Valid() && st == old(st)
        invariant FirstDefault(g, 0) == FirstDefault(g, i)
      {
        if props[i].kind == DefaultProp {
          var applies := DefaultApplies(props[i]);
          if applies {
            return DefaultSymbol(props[i].value);
          }
        }
        i := i + 1;
      }
      i := 0;
      while i < |g.members|
        invariant 0 <= i <= |g.members|
        invariant FirstMember(g, 0) == FirstMember(g, i)
      {
        if At(st.visible, g.members[i]) != NO {
          return Some(g.members[i]);
        }
        i := i + 1;
      }
      return None;
    }

    /** The condition of a default of the choice is not n and its member is visible. */
    method DefaultApplies(p: Prop) returns (applies: bool)
      requires Valid() && g.choice in st.valid && At(st.tri, g.choice) == YES
      requires p in g.defs[g.choice].props && p.kind == DefaultProp
      requires forall s | s in g.members :: At(st.visible, s) == VisibleIn(g, s, With(g, YES))
      modifies this`st
      ensures Valid() && st == old(st)
      ensures DefaultSymbol(p.value).Some?
      ensures applies <==> Applies(g, p)
      decreases 3
    {
      var t := YES;
      if p.visible.Some? {
        t := CalcExpr(p.visible.value, YES);
      }
      applies := t != NO && At(st.visible, DefaultSymbol(p.value).value) != NO;
    }

    /** The value of a member whose visibility was computed. */
    method MemberValue(s: Symbol) returns (newval: Tri)
      requires Valid() && s in g.members && (g.choice in st.valid ==> Done())
      requires At(st.visible, s) == VisibleIn(g, s, With(g, Final()))
               && (At(st.visible, s) == NO || g.choice in st.valid)
      ensures newval == MemberTri(g, base, s)
    {
      newval := NO;
      if At(st.visible, s) == YES {
        newval := if st.val == Some(s) then YES else NO;
      } else {
        if At(st.visible, s) != NO && s in st.user.has {
          newval := And(At(st.user.def, s), At(st.visible, s));
        }
        if newval == MOD && EffectiveType(s, g.modules) == Boolean {
          newval := YES;
        }
      }
    }

    /** sym_calc_value for a member. */
    method CalcValue(s: Symbol)
      requires Valid() && s in g.members && (g.choice in st.valid ==> Done())
      modifies this`st
      ensures Valid() && (g.choice in st.valid ==> Done())
      ensures old(Settled(s)) ==> Settled(s)
      ensures s in st.valid && old(st.valid) <= st.valid <= old(st.valid) + {s, g.choice}
      ensures forall m | m in g.members && m != s :: At(st.tri, m) == At(old(st.tri), m)
    {
      if s in st.valid {
        return;
      }
      Look(s);
      var newval := MemberValue(s);
      Store(s, newval);
    }

    /** A member is marked as evaluated and its visibility computed, and with it the
        choice if a prompt of the member reads it.  The value is n for now. */
    method Look(s: Symbol)
      requires Valid() && s in g.members && (g.choice in st.valid ==> Done())
      modifies this`st
      ensures Valid() && base == old(base) && (g.choice in st.valid ==> Done())
      ensures At(st.visible, s) == VisibleIn(g, s, With(g, Final()))
              && (At(st.visible, s) == NO || g.choice in st.valid)
      ensures s in st.valid && old(st.valid) <= st.valid <= old(st.valid) + {s, g.choice}
      ensures forall m | m in g.members && m != s :: At(st.tri, m) == At(old(st.tri), m)
    {
      st := st.(valid := st.valid + {s});
      CalcVisibility(s, Final());
      Store(s, NO);
    }

    method Store(s: Symbol, t: Tri)
      requires Valid() && s in g.members && (g.choice in st.valid ==> Done())
      modifies this`st
      ensures Valid() && st == old(st).(tri := st.tri) && (g.choice in st.valid ==> Done())
      ensures At(st.tri, s) == t && forall m | m in g.members && m != s :: At(st.tri, m) == At(old(st.tri), m)
    {
      assert s != g.choice;
      st := st.(tri := st.tri[s := t]);
    }

    /** sym_calc_value for one symbol of the group. */
    method Ask(s: Symbol)
      requires Valid() && (s == g.choice || s in g.members) && (g.choice in st.valid ==> Done())
      requires forall m | m in g.members :: Settled(m)
      modifies this`st
      ensures Valid() && (g.choice in st.valid ==> Done()) && forall m | m in g.members :: Settled(m)
      ensures s in st.valid && old(st.valid) <= st.valid
    {
      ghost var before := st;
      if s == g.choice {
        CalcChoiceValue();
      } else {
        CalcValue(s);
      }
      assert forall m | m in g.members && m != s ::
          At(st.tri, m) == At(before.tri, m) && (m in st.valid <==> m in before.valid);
    }

    /** sym_calc_value for any symbols of the group, in any order: every symbol asked
        for ends up with the value that the reference semantics gives it. */
    method AskAll(symbols: seq<Symbol>)
      requires Valid() && st.valid == {} && forall s | s in symbols :: s == g.choice || s in g.members
      modifies this`st
      ensures Valid()
      ensures forall s | s in symbols && s in g.members :: At(st.tri, s) == MemberTri(g, base, s)
      ensures g.choice in symbols ==> Done()
    {
      var i := 0;
      while i < |symbols|
        invariant 0 <= i <= |symbols| && Valid() && (g.choice in st.valid ==> Done())
        invariant forall j | 0 <= j < i :: symbols[j] in st.valid
        invariant forall s | s in g.members :: Settled(s)
      {
        Ask(symbols[i]);
        i := i + 1;
      }
    }

    /** The user's choice is a member, whatever is cached. */
    ghost predicate Clearable()
      reads this
    {
      ValidGroup(g) && (st.user.val.Some? ==> st.user.val.value in g.members)
    }

    method ClearAllValid()
      requires Clearable()
      modifies this
      ensures Valid() && st == old(st).(valid := {}) && base == st.user
    {
      st := st.(valid := {});
      base := st.user;
    }

    /** sym_set_tristate_value for a member.  Confirming the value that the member has
        leaves the cache alone. */
    method SetTristateValue(s: Symbol, val: Tri) returns (accepted: bool)
      requires Valid() && s in g.members
      modifies this
      ensures accepted <==> val == At(old(st.tri), s) || InRange(g, s, At(old(st.visible), s), val)
      ensures !accepted ==> Valid() && st == old(st) && base == old(base)
      ensures accepted ==> st.user == Accept(g, old(st.user), old(st.visible), s, val) && Clearable()
      ensures accepted && val != At(old(st.tri), s) ==> Valid() && st.valid == {} && base == st.user
      ensures accepted && val == At(old(st.tri), s) ==> st == old(st).(user := st.user)
    {
      accepted := At(st.tri, s) == val || InRange(g, s, At(st.visible, s), val);
      if !accepted {
        return;
      }
      var has := st.user.has + {s};
      if val == YES {
        var visible := VisibleMembers();
        has := has + {g.choice} + visible;
        st := st.(user := st.user.(val := Some(s)));
      }
      var changed := At(st.tri, s) != val;
      st := st.(user := User(has, st.user.def[s := val], st.user.val));
      if changed {
        ClearAllValid();
      }
    }

    method VisibleMembers() returns (visible: set<Symbol>)
      ensures visible == set m | m in g.members && At(st.visible, m) != NO
    {
      visible := {};
      var i := 0;
      while i < |g.members|
        invariant 0 <= i <= |g.members|
        invariant visible == set j | 0 <= j < i && At(st.visible, g.members[j]) != NO :: g.members[j]
      {
        if At(st.visible, g.members[i]) != NO {
          visible := visible + {g.members[i]};
        }
        i := i + 1;
      }
    }
  }

  /** sym_tristate_within_range for a member, which no one selects. */
  predicate InRange(g: Group, s: Symbol, visible: Tri, val: Tri) {
    && visible != NO && !(EffectiveType(s, g.modules) == Boolean && val == MOD)
    && if visible == YES then val == YES else val <= visible
  }

  lemma PromptsNext(props: seq<Prop>, i: nat, v: Valuation)
    requires i < |props|
    ensures Prompts(props, i + 1, v) == if props[i].kind != PromptProp then Prompts(props, i, v)
                                        else Or(Prompts(props, i, v), Condition(props[i].visible, YES, v))
  {
  }

  lemma {:induction false} OuterPrompts(g: Group, i: nat, t: Tri)
    requires ValidChoice(g) && i <= |g.defs[g.choice].props|
    ensures Prompts(g.defs[g.choice].props, i, With(g, t)) == Prompts(g.defs[g.choice].props, i, With(g, NO))
  {
    if i > 0 {
      OuterPrompts(g, i - 1, t);
      var p := g.defs[g.choice].props[i - 1];
      if p.kind == PromptProp && p.visible.Some? {
        WithoutChoice(g, p.visible.value, t, NO);
      }
    }
  }
}
