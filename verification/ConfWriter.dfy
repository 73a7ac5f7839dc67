/** The writing loop of conf_write_defconfig over an evaluated symbol table. */
module ConfWriter {
  import opened Tristate
  import opened Expr
  import opened Kconfig
  import opened Solutions
  import opened Evaluator
  import opened ConfText
  import opened Defconfig
  import opened ConfFile

  /** sym_get_string_default of an evaluated symbol, as a call on the table. */
  method StringDefaultOf(t: SymbolTable, s: Symbol) returns (text: string)
    requires t.Consistent() && s in t.valid && s.Config?
    modifies t
    ensures t.Consistent() && t.user == old(t.user) && t.ref == old(t.ref) && s in t.valid
    ensures text == DefaultString(t.k, t.ref, s)
  {
    assert DefBelow(t.k, t.k.defs[s], t.k.order[s]);
    if s.IsLogical() || IsString(s.Type()) {
      t.CalcVisibility(s);
    }
    var d := t.GetDefault(s);
    if s.IsLogical() {
      text := LogicalDefaultOf(t, s, d);
    } else {
      text := OtherDefaultOf(t, s, d);
    }
  }

  method OtherDefaultOf(t: SymbolTable, s: Symbol, d: Option<(ExprPtr, Tri)>) returns (text: string)
    requires t.Consistent() && s in t.valid && s.Config? && !s.IsLogical()
    requires d == DefaultOf(t.k, ValuationOf(t.k, t.ref), s)
    requires d.Some? ==> d.value.0.Some? && Below(t.k, d.value.0.value, t.k.order[s])
    modifies t
    ensures t.Consistent() && t.user == old(t.user) && t.ref == old(t.ref) && s in t.valid
    ensures text == DefaultString(t.k, t.ref, s)
  {
    text := "";
    var ds := if d.Some? then DefaultSymbol(d.value.0) else None;
    if ds.Some? && IsString(s.Type()) {
      t.CalcValue(ds.value);
      text := t.CurrValue(ds.value).val;
    }
  }

  /** The default of a logical symbol together with its reverse dependency. */
  method LogicalDefaultOf(t: SymbolTable, s: Symbol, d: Option<(ExprPtr, Tri)>) returns (text: string)
    requires t.Consistent() && s in t.valid && s.IsLogical() && d == DefaultOf(t.k, ValuationOf(t.k, t.ref), s)
    requires d.Some? ==> d.value.0.Some? && Below(t.k, d.value.0.value, t.k.order[s])
    modifies t
    ensures t.Consistent() && t.user == old(t.user) && t.ref == old(t.ref) && s in t.valid
    ensures text == DefaultString(t.k, t.ref, s)
  {
    var val := NO;
    if d.Some? {
      var value := t.CalcExpr(d.value.0.value, t.k.order[s]);
      val := And(value, d.value.1);
    }
    val := PromoteDefault(s, t.k.modules, Or(val, t.facts[s].rev));
    text := TriString(val);
  }

  /** conf_write_symbol. */
  method PrintRecord(prefix: string, s: Symbol, text: string) returns (line: string)
    requires s.Config?
    ensures line == Record(prefix, s, text)
  {
    var value := text;
    if s.Type() == StringType {
      var size;
      value, size := EscapeString(text);
    }
    line := PrintSymbol(prefix, s, value);
  }

  /** One round of the loop: what it appends, and what remains to be written. */
  lemma LinesAppend(prefix: string, k: Table, m: Model, entries: seq<Symbol>, written: set<Symbol>, i: nat,
                    before: seq<string>)
    requires i < |entries|
    requires forall s | s in entries :: s in k.defs && s in m && s.Config?
    ensures var s := entries[i];
            var skip := !m[s].write || s in written;
            var new_ := if skip || !IsSaved(k, m, s) then [] else [Record(prefix, s, Text(k, m, s))];
            before + DefconfigLines(prefix, k, m, entries[i..], written)
              == (before + new_) + DefconfigLines(prefix, k, m, entries[i + 1..],
                                                  if skip then written else written + {s})
  {
    assert entries[i..][0] == entries[i] && entries[i..][1..] == entries[i + 1..];
    var s := entries[i];
    var rest := DefconfigLines(prefix, k, m, entries[i + 1..], written + {s});
    assert before + ([Record(prefix, s, Text(k, m, s))] + rest) == (before + [Record(prefix, s, Text(k, m, s))]) + rest;
    assert before + [] == before;
  }

  /** The lines for one symbol that was not written yet. */
  method WriteOne(t: SymbolTable, prefix: string, s: Symbol) returns (lines: seq<string>)
    requires t.Consistent() && s in t.valid && s.Config? && t.facts[s].write
    modifies t
    ensures t.Consistent() && t.user == old(t.user) && t.ref == old(t.ref) && s in t.valid
    ensures lines == if IsSaved(t.k, t.ref, s) then [Record(prefix, s, Text(t.k, t.ref, s))] else []
  {
    lines := [];
    if Changeable(t.facts[s]) {
      var text := StringValue(s, t.k.modules, t.facts[s].curr);
      var dflt := StringDefaultOf(t, s);
      if text != dflt {
        var line := PrintRecord(prefix, s, text);
        lines := [line];
      }
    }
  }

  /** One round of the loop: the symbol is evaluated and, unless that was done before,
      written. */
  method WriteNext(t: SymbolTable, prefix: string, entries: seq<Symbol>, i: nat, written: set<Symbol>,
                   lines: seq<string>)
    returns (lines': seq<string>, written': set<Symbol>)
    requires t.Consistent() && i < |entries| && forall s | s in entries :: s in t.k.defs && s.Config?
    modifies t
    ensures t.Consistent() && t.user == old(t.user) && t.ref == old(t.ref)
    ensures lines + DefconfigLines(prefix, t.k, t.ref, entries[i..], written)
         == lines' + DefconfigLines(prefix, t.k, t.ref, entries[i + 1..], written')
  {
    var s := entries[i];
    LinesAppend(prefix, t.k, t.ref, entries, written, i, lines);
    assert lines + [] == lines;
    lines', written' := lines, written;
    t.CalcValue(s);
    if t.facts[s].write && s !in written {
      written' := written + {s};
      var new_ := WriteOne(t, prefix, s);
      lines' := lines + new_;
    }
  }

  /** conf_write_defconfig for the symbols of the menu entries in walking order.
      The set `written` stands for the SYMBOL_WRITE flags the loop clears. */
  method WriteDefconfig(t: SymbolTable, prefix: string, entries: seq<Symbol>) returns (lines: seq<string>)
    requires t.Valid()
    requires forall s | s in entries :: s in t.k.defs && s.Config?
    modifies t
    ensures t.Consistent() && t.user == old(t.user)
    ensures forall m | Solves(t.k, t.user, m) :: lines == DefconfigLines(prefix, t.k, m, entries, {})
  {
    t.ClearAllValid();
    ghost var m := t.ref;
    lines := [];
    var written: set<Symbol> := {};
    var i := 0;
    assert entries[0..] == entries;
    while i < |entries|
      invariant 0 <= i <= |entries|
      invariant t.Consistent() && t.user == old(t.user) && t.ref == m
      invariant DefconfigLines(prefix, t.k, m, entries, {})
             == lines + DefconfigLines(prefix, t.k, m, entries[i..], written)
    {
      lines, written := WriteNext(t, prefix, entries, i, written, lines);
      i := i + 1;
    }
    assert entries[i..] == [];
    OnlySolution(t.k, t.user, m);
  }

  lemma OnlySolution(k: Table, u: UserValues, m: Model)
    requires Acyclic(k) && Solves(k, u, m)
    ensures forall m' | Solves(k, u, m') :: m' == m
  {
    forall m' | Solves(k, u, m') ensures m' == m {
      SolutionUnique(k, u, m', m);
    }
  }
}
