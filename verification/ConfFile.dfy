/** Records of a configuration file: printing them (kconfig_print_symbol) and
    reading them (conf_read_simple, conf_set_sym_val).  `prefix` is CONFIG_. */
module ConfFile {
  import opened Tristate
  import opened Expr
  import opened Kconfig
  import opened Solutions
  import opened ConfText
  import opened Defconfig

  // ----- printing -----

  const NOT_SET_TEXT: string := "is not set"

  /** kconfig_print_symbol without skipping unset symbols. */
  function PrintSymbol(prefix: string, s: Symbol, value: string): string
    requires s.Config?
  {
    if s.IsLogical() && value != "" && value[0] == 'n' then "# " + prefix + s.name + " " + NOT_SET_TEXT + "\n"
    else prefix + s.name + "=" + value + "\n"
  }

  /** conf_write_symbol for a symbol with a usable type. */
  function Record(prefix: string, s: Symbol, text: string): string
    requires s.Config?
  {
    PrintSymbol(prefix, s, if s.Type() == StringType then Escape(text) else text)
  }

  // ----- reading one line -----

  datatype Entry = Ignored | NotSet(name: string) | Setting(name: string, text: string)

  /** strchr: the part before and after the first `c`. */
  function Split(s: string, c: char): Option<(string, string)> {
    if s == "" then None
    else if s[0] == c then Some(("", s[1..]))
    else
      var r := Split(s[1..], c);
      if r.None? then None else Some(([s[0]] + r.value.0, r.value.1))
  }

  predicate StartsWith(s: string, t: string) {
    |t| <= |s| && s[..|t|] == t
  }

  /** The line without its end: the newline, and a carriage return before it. */
  function StripEnd(s: string): string {
    var r := Split(s, '\n');
    if r.None? then s
    else
      var t := r.value.0;
      if t != "" && t[|t| - 1] == '\r' then t[..|t| - 1] else t
  }

  function ParseLine(prefix: string, line: string): Entry {
    if line != "" && line[0] == '#' then
      if |line| < 2 || !StartsWith(line[2..], prefix) then Ignored
      else
        var r := Split(line[2 + |prefix|..], ' ');
        if r.None? || !StartsWith(r.value.1, NOT_SET_TEXT) then Ignored else NotSet(r.value.0)
    else if StartsWith(line, prefix) then
      var r := Split(line[|prefix|..], '=');
      if r.None? then Ignored else Setting(r.value.0, StripEnd(r.value.1))
    else Ignored
  }

  // ----- conf_set_sym_val -----

  predicate IsDigit(c: char) {
    '0' <= c <= '9'
  }

  predicate IsHexDigit(c: char) {
    IsDigit(c) || 'a' <= c <= 'f' || 'A' <= c <= 'F'
  }

  /** An int without its sign, a hex without its 0x. */
  function IntDigits(s: string): string {
    if s != "" && s[0] == '-' then s[1..] else s
  }

  function HexDigits(s: string): string {
    if |s| >= 2 && s[0] == '0' && (s[1] == 'x' || s[1] == 'X') then s[2..] else s
  }

  /** sym_string_valid for int and hex symbols. */
  predicate ValidInt(s: string) {
    var d := IntDigits(s);
    d != "" && (d[0] == '0' ==> |d| == 1) && forall i | 0 <= i < |d| :: IsDigit(d[i])
  }

  predicate ValidHex(s: string) {
    var d := HexDigits(s);
    d != "" && forall i | 0 <= i < |d| :: IsHexDigit(d[i])
  }

  /** The user value a setting assigns; None if it is rejected or passed over. */
  function SetSymVal(s: Symbol, p: string): Option<UserValue> {
    match s.Type()
    case TristateType =>
      if p != "" && p[0] == 'm' then Some(UserValue(MOD, "")) else SetBoolean(p)
    case Boolean => SetBoolean(p)
    case StringType =>
      if p == "" || p[0] != '\"' then None
      else
        var v := Unescape(p[1..]);
        if v.None? then None else Some(UserValue(NO, v.value))
    case IntType => if ValidInt(p) then Some(UserValue(NO, p)) else None
    case HexType => if ValidHex(p) then Some(UserValue(NO, p)) else None
    case _ => None
  }

  function SetBoolean(p: string): Option<UserValue> {
    if p != "" && p[0] == 'y' then Some(UserValue(YES, ""))
    else if p != "" && p[0] == 'n' then Some(UserValue(NO, ""))
    else None
  }

  /** The symbol hash: every declared symbol under its name. */
  type Names = map<string, Symbol>

  ghost predicate Indexes(names: Names, k: Table) {
    && (forall n | n in names :: names[n] in k.defs && names[n].Config? && names[n].name == n)
    && (forall s | s in k.defs && s.Config? :: s.name in names && names[s.name] == s)
  }

  function ReadEntry(names: Names, u: UserValues, e: Entry): UserValues {
    match e
    case Ignored => u
    case NotSet(name) =>
      if name in names && names[name].IsLogical() then u[names[name] := UserValue(NO, "")] else u
    case Setting(name, text) =>
      if name in names && SetSymVal(names[name], text).Some?
      then u[names[name] := SetSymVal(names[name], text).value] else u
  }

  /** The lines after one another, starting from the values `u`. */
  function ReadLines(prefix: string, names: Names, u: UserValues, lines: seq<string>): UserValues
    decreases |lines|
  {
    if lines == [] then u
    else ReadLines(prefix, names, ReadEntry(names, u, ParseLine(prefix, lines[0])), lines[1..])
  }

  /** The reading loop of conf_read_simple, on a table whose user values are cleared. */
  method ReadConfig(prefix: string, names: Names, lines: seq<string>) returns (u: UserValues)
    ensures u == ReadLines(prefix, names, map[], lines)
  {
    u := map[];
    var i := 0;
    while i < |lines|
      invariant 0 <= i <= |lines|
      invariant ReadLines(prefix, names, map[], lines) == ReadLines(prefix, names, u, lines[i..])
    {
      u := ReadEntry(names, u, ParseLine(prefix, lines[i]));
      assert lines[i..][1..] == lines[i + 1..];
      i := i + 1;
    }
  }

  /** The lines count in their order. */
  lemma {:induction false} LastLineCounts(prefix: string, names: Names, u: UserValues, lines: seq<string>, line: string)
    ensures ReadLines(prefix, names, u, lines + [line])
         == ReadEntry(names, ReadLines(prefix, names, u, lines), ParseLine(prefix, line))
    decreases |lines|
  {
    if lines == [] {
      assert [] + [line] == [line] && [line][1..] == [];
    } else {
      assert (lines + [line])[1..] == lines[1..] + [line];
      LastLineCounts(prefix, names, ReadEntry(names, u, ParseLine(prefix, lines[0])), lines[1..], line);
    }
  }

  /** A line changes at most the symbol it names: to n if it says that it is not set, which
      only counts for booleans and tristates, and else to the value that it sets. */
  lemma EntryChanges(names: Names, u: UserValues, e: Entry, s: Symbol)
    requires UserOf(ReadEntry(names, u, e), s) != UserOf(u, s)
    ensures !e.Ignored? && e.name in names && names[e.name] == s
    ensures UserOf(ReadEntry(names, u, e), s) == if e.NotSet? then Some(UserValue(NO, "")) else SetSymVal(s, e.text)
    ensures e.NotSet? ==> s.IsLogical()
  {
  }

  // ----- which lines say something -----

  lemma {:induction false} SplitIff(s: string, c: char, a: string, b: string)
    ensures Split(s, c) == Some((a, b)) <==> c !in a && s == a + [c] + b
  {
    if Split(s, c) == Some((a, b)) && s[0] != c {
      assert a == [s[0]] + a[1..];
      SplitIff(s[1..], c, a[1..], b);
    }
    if c !in a && s == a + [c] + b {
      SplitAt(a, c, b);
    }
  }

  /** The end of a line is its first newline, with one carriage return before it. */
  lemma StripEndIff(s: string, t: string)
    ensures StripEnd(s) == t
       <==> || ('\n' !in s && t == s)
            || ('\n' !in t && ((exists rest :: s == t + ['\r', '\n'] + rest)
                               || (exists rest :: s == t + ['\n'] + rest && (t == "" || t[|t| - 1] != '\r'))))
  {
    if Split(s, '\n').None? {
      SplitNone(s, '\n');
    } else {
      var (a, b) := Split(s, '\n').value;
      SplitIff(s, '\n', a, b);
      StripSplit(s, t, a, b);
    }
  }

  lemma {:induction false} SplitNone(s: string, c: char)
    ensures Split(s, c).None? <==> c !in s
  {
    if s != "" {
      SplitNone(s[1..], c);
    }
  }

  lemma StripSplit(s: string, t: string, a: string, b: string)
    requires '\n' !in a && s == a + ['\n'] + b
    ensures (if a != "" && a[|a| - 1] == '\r' then a[..|a| - 1] else a) == t
       <==> '\n' !in t && ((exists rest :: s == t + ['\r', '\n'] + rest)
                           || (exists rest :: s == t + ['\n'] + rest && (t == "" || t[|t| - 1] != '\r')))
  {
    forall rest | '\n' !in t && s == t + ['\n'] + rest ensures t == a {
      FirstSame(t, rest, a, b);
    }
    forall rest | '\n' !in t && s == t + ['\r', '\n'] + rest ensures t + ['\r'] == a {
      assert s == (t + ['\r']) + ['\n'] + rest;
      FirstSame(t + ['\r'], rest, a, b);
    }
    if a != "" && a[|a| - 1] == '\r' {
      assert s == a[..|a| - 1] + ['\r', '\n'] + b;
    }
  }

  lemma FirstSame(a: string, b: string, c: string, d: string)
    requires '\n' !in a && '\n' !in c && a + ['\n'] + b == c + ['\n'] + d
    ensures a == c
  {
    SplitIff(a + ['\n'] + b, '\n', a, b);
    SplitIff(a + ['\n'] + b, '\n', c, d);
  }

  /** A line sets a value exactly if it is the prefix, a name, an equal sign and the value. */
  lemma SettingIff(prefix: string, line: string, name: string, text: string)
    ensures ParseLine(prefix, line) == Setting(name, text)
       <==> exists rest :: && line == prefix + (name + ['='] + rest) && '=' !in name && line[0] != '#'
                           && text == StripEnd(rest)
  {
    if ParseLine(prefix, line) == Setting(name, text) {
      var rest := Split(line[|prefix|..], '=').value.1;
      SplitIff(line[|prefix|..], '=', name, rest);
      assert line == line[..|prefix|] + line[|prefix|..];
    }
    if rest :| line == prefix + (name + ['='] + rest) && '=' !in name && line[0] != '#' && text == StripEnd(rest) {
      assert line[..|prefix|] == prefix && line[|prefix|..] == name + ['='] + rest;
      SplitIff(line[|prefix|..], '=', name, rest);
    }
  }

  /** A line unsets a name exactly if it is a comment with the prefix, the name and the
      words "is not set", whatever follows them. */
  lemma NotSetIff(prefix: string, line: string, name: string)
    ensures ParseLine(prefix, line) == NotSet(name)
       <==> && |line| >= 2 && line[0] == '#' && ' ' !in name
            && exists rest :: line[2..] == prefix + (name + [' '] + (NOT_SET_TEXT + rest))
  {
    if ParseLine(prefix, line) == NotSet(name) {
      var tail := Split(line[2 + |prefix|..], ' ').value.1;
      var rest := tail[|NOT_SET_TEXT|..];
      SplitIff(line[2 + |prefix|..], ' ', name, tail);
      assert tail == NOT_SET_TEXT + rest;
      assert line[2..] == line[2..][..|prefix|] + line[2 + |prefix|..];
    }
    if |line| >= 2 && line[0] == '#' && ' ' !in name {
      if rest :| line[2..] == prefix + (name + [' '] + (NOT_SET_TEXT + rest)) {
        assert line[2..][..|prefix|] == prefix;
        assert line[2 + |prefix|..] == line[2..][|prefix|..] == name + [' '] + (NOT_SET_TEXT + rest);
        SplitIff(line[2 + |prefix|..], ' ', name, NOT_SET_TEXT + rest);
      }
    }
  }

  // ----- which values are accepted -----

  /** Of a value for a boolean or tristate only the first character counts. */
  lemma LogicalSettingIff(s: Symbol, p: string, t: Tri)
    requires s.IsLogical()
    ensures SetSymVal(s, p) == Some(UserValue(t, ""))
       <==> p != "" && [p[0]] == TriString(t) && (t == MOD ==> s.Type() == TristateType)
  {
    assert "y"[0] == 'y' && "n"[0] == 'n' && "m"[0] == 'm';
  }

  lemma {:induction false} UnescapeNeedsQuote(s: string)
    requires Unescape(s).Some?
    ensures '\"' in s
  {
    if s[0] == '\\' {
      UnescapeNeedsQuote(s[2..]);
    } else if s[0] != '\"' {
      UnescapeNeedsQuote(s[1..]);
    }
  }

  /** A value for a string counts only between quotes. */
  lemma StringSettingQuoted(s: Symbol, p: string)
    requires s.Type() == StringType && SetSymVal(s, p).Some?
    ensures p != "" && p[0] == '\"' && '\"' in p[1..]
  {
    UnescapeNeedsQuote(p[1..]);
  }

  function Digit(d: nat): char
    requires d < 10
  {
    '0' + d as char
  }

  /** The decimal digits of a number. */
  function Decimal(n: nat): string {
    if n < 10 then [Digit(n)] else Decimal(n / 10) + [Digit(n % 10)]
  }

  predicate ValidDecimal(d: string) {
    d != "" && (d[0] == '0' ==> |d| == 1) && forall i | 0 <= i < |d| :: IsDigit(d[i])
  }

  lemma {:induction false} DecimalValid(n: nat)
    ensures ValidDecimal(Decimal(n)) && (Decimal(n)[0] == '0' ==> n == 0)
  {
    if n >= 10 {
      DecimalValid(n / 10);
    }
  }

  lemma {:induction false} DecimalOf(d: string) returns (n: nat)
    requires ValidDecimal(d)
    ensures Decimal(n) == d
  {
    var k := |d| - 1;
    var last := (d[k] - '0') as int;
    assert IsDigit(d[k]) && Digit(last) == d[k];
    if k == 0 {
      n := last;
    } else {
      var m := DecimalOf(d[..k]);
      DecimalValid(m);
      assert m > 0;
      n := 10 * m + last;
      assert n / 10 == m && n % 10 == last;
      assert d == d[..k] + [d[k]];
    }
  }

  /** An int is accepted exactly if it is a number in decimal notation without leading
      zeros, with or without a minus sign. */
  lemma ValidIntIff(s: string)
    ensures ValidInt(s) <==> exists n: nat :: s == Decimal(n) || s == "-" + Decimal(n)
  {
    if ValidInt(s) {
      var n := DecimalOf(IntDigits(s));
      assert s == IntDigits(s) || s == "-" + IntDigits(s);
    }
    if n: nat :| s == Decimal(n) || s == "-" + Decimal(n) {
      DecimalValid(n);
      assert IntDigits(s) == Decimal(n);
    }
  }

  predicate AllHex(d: string) {
    d != "" && forall i | 0 <= i < |d| :: d[i] in "0123456789abcdefABCDEF"
  }

  lemma HexDigitIff(c: char)
    ensures IsHexDigit(c) <==> c in "0123456789abcdefABCDEF"
  {
  }

  /** A hex is accepted exactly if it consists of hexadecimal digits, with or without 0x
      or 0X before them. */
  lemma ValidHexIff(s: string)
    ensures ValidHex(s) <==> exists d :: AllHex(d) && (s == d || s == "0x" + d || s == "0X" + d)
  {
    forall c ensures IsHexDigit(c) <==> c in "0123456789abcdefABCDEF" {
      HexDigitIff(c);
    }
    if ValidHex(s) {
      var d := HexDigits(s);
      assert AllHex(d);
      assert s == d || s == "0x" + d || s == "0X" + d;
    }
    if d :| AllHex(d) && (s == d || s == "0x" + d || s == "0X" + d) {
      if s == d {
        assert |d| >= 2 ==> d[1] in "0123456789abcdefABCDEF";
        assert HexDigits(s) == s;
      } else {
        assert HexDigits(s) == d;
      }
    }
  }

  // ----- one record comes back -----

  /** No character of the name or prefix is used by the record format. */
  predicate PlainName(s: string) {
    forall i | 0 <= i < |s| :: s[i] != ' ' && s[i] != '=' && s[i] != '#' && s[i] != '\n'
  }

  predicate NoNewline(s: string) {
    forall i | 0 <= i < |s| :: s[i] != '\n'
  }

  lemma {:induction false} SplitAt(s: string, c: char, t: string)
    requires c !in s
    ensures Split(s + [c] + t, c) == Some((s, t))
  {
    var x := s + [c] + t;
    if s == "" {
      assert x == [c] + t;
    } else {
      assert x[1..] == s[1..] + [c] + t;
      SplitAt(s[1..], c, t);
      assert [s[0]] + s[1..] == s;
    }
  }

  lemma ParseNotSet(prefix: string, name: string)
    requires PlainName(prefix) && PlainName(name)
    ensures ParseLine(prefix, "# " + prefix + name + " " + NOT_SET_TEXT + "\n") == NotSet(name)
  {
    var line := "# " + prefix + name + " " + NOT_SET_TEXT + "\n";
    assert line[2..][..|prefix|] == prefix;
    assert line[2 + |prefix|..] == name + [' '] + (NOT_SET_TEXT + "\n");
    SplitAt(name, ' ', NOT_SET_TEXT + "\n");
    assert (NOT_SET_TEXT + "\n")[..|NOT_SET_TEXT|] == NOT_SET_TEXT;
  }

  lemma ParseSetting(prefix: string, name: string, text: string)
    requires PlainName(prefix) && PlainName(name)
    requires NoNewline(text) && (text != "" ==> text[|text| - 1] != '\r')
    ensures ParseLine(prefix, prefix + name + "=" + text + "\n") == Setting(name, text)
  {
    var line := prefix + name + "=" + text + "\n";
    assert line[..|prefix|] == prefix;
    assert line[|prefix|..] == name + ['='] + (text + "\n");
    SplitAt(name, '=', text + "\n");
    assert text + "\n" == text + ['\n'] + "";
    SplitAt(text, '\n', "");
    assert line[0] != '#' by {
      if prefix != "" {
        assert line[0] == prefix[0];
      } else if name != "" {
        assert line[0] == name[0];
      } else {
        assert line[0] == '=';
      }
    }
  }

  lemma {:induction false} EscapeNoNewline(s: string)
    requires NoNewline(s)
    ensures NoNewline(EscapeBody(s))
  {
    if s != "" {
      EscapeNoNewline(s[1..]);
    }
  }

  /** A text that a record of the symbol can carry. */
  predicate Recordable(s: Symbol, text: string) {
    match s.Type()
    case TristateType => text == "n" || text == "m" || text == "y"
    case Boolean => text == "n" || text == "y"
    case StringType => NoNewline(text)
    case IntType => ValidInt(text)
    case HexType => ValidHex(text)
    case _ => false
  }

  function TextValue(s: Symbol, text: string): UserValue {
    if s.IsLogical() then UserValue(if text == "n" then NO else if text == "m" then MOD else YES, "")
    else UserValue(NO, text)
  }

  lemma NumberHasNoNewline(s: string)
    requires ValidInt(s) || ValidHex(s)
    ensures NoNewline(s) && s != "" && s[|s| - 1] != '\r'
  {
    var d := if ValidInt(s) then IntDigits(s) else HexDigits(s);
    var n := |s| - |d|;
    forall i | 0 <= i < |s|
      ensures s[i] != '\n' && s[i] != '\r'
    {
      if i >= n {
        assert s[i] == d[i - n];
        assert IsHexDigit(d[i - n]);
      }
    }
  }

  /** What conf_set_sym_val makes of a value that was printed. */
  lemma SettingReadsBack(s: Symbol, text: string)
    requires Recordable(s, text)
    ensures SetSymVal(s, if s.Type() == StringType then Escape(text) else text) == Some(TextValue(s, text))
  {
    if s.Type() == StringType {
      UnescapeQuoted(text);
    }
  }

  /** The line of a record is taken apart into the name and the printed value. */
  lemma RecordParses(prefix: string, s: Symbol, text: string)
    requires s.Config? && PlainName(prefix) && PlainName(s.name)
    requires Recordable(s, text)
    ensures ParseLine(prefix, Record(prefix, s, text))
         == if s.IsLogical() && text == "n" then NotSet(s.name)
            else Setting(s.name, if s.Type() == StringType then Escape(text) else text)
  {
    if s.IsLogical() && text == "n" {
      ParseNotSet(prefix, s.name);
    } else if s.Type() == StringType {
      EscapeNoNewline(text);
      ParseSetting(prefix, s.name, Escape(text));
    } else {
      if !s.IsLogical() {
        NumberHasNoNewline(text);
      }
      ParseSetting(prefix, s.name, text);
    }
  }

  /** A printed record, quoted string, y, m, number or "is not set", reads back to
      the value it was printed for. */
  lemma RecordReadsBack(prefix: string, k: Table, names: Names, u: UserValues, s: Symbol, text: string)
    requires Indexes(names, k) && s in k.defs && s.Config?
    requires PlainName(prefix) && PlainName(s.name)
    requires Recordable(s, text)
    ensures ReadEntry(names, u, ParseLine(prefix, Record(prefix, s, text))) == u[s := TextValue(s, text)]
  {
    RecordParses(prefix, s, text);
    SettingReadsBack(s, text);
  }

  // ----- a whole minimal configuration -----

  /** The records of the loop of conf_write_defconfig, for the symbols of the menu
      entries in the order of the walk; `written` are those already dealt with. */
  ghost function DefconfigLines(prefix: string, k: Table, m: Model, entries: seq<Symbol>,
                                written: set<Symbol>): seq<string>
    requires forall s | s in entries :: s in k.defs && s in m && s.Config?
  {
    if entries == [] then []
    else
      var s := entries[0];
      if !m[s].write || s in written then DefconfigLines(prefix, k, m, entries[1..], written)
      else if IsSaved(k, m, s) then
        [Record(prefix, s, Text(k, m, s))] + DefconfigLines(prefix, k, m, entries[1..], written + {s})
      else DefconfigLines(prefix, k, m, entries[1..], written + {s})
  }

  /** The saved symbols of the entries, leaving those in `written` out. */
  ghost function SavedSet(k: Table, m: Model, entries: seq<Symbol>, written: set<Symbol>): set<Symbol>
    requires forall s | s in entries :: s in k.defs && s in m && s.Config?
  {
    set s | s in entries && s !in written && IsSaved(k, m, s)
  }

  /** The lines come in the order of the entries: those of one more entry behind all others. */
  lemma {:induction false} LinesInOrder(prefix: string, k: Table, m: Model, entries: seq<Symbol>, written: set<Symbol>,
                                        s: Symbol)
    requires forall t | t in entries + [s] :: t in k.defs && t in m && t.Config?
    ensures DefconfigLines(prefix, k, m, entries + [s], written)
         == DefconfigLines(prefix, k, m, entries, written)
            + if s in entries || s in written || !IsSaved(k, m, s) then []
              else [Record(prefix, s, Text(k, m, s))]
  {
    if entries == [] {
      assert [] + [s] == [s] && [s][1..] == [];
    } else {
      var t := entries[0];
      assert (entries + [s])[1..] == entries[1..] + [s];
      LinesInOrder(prefix, k, m, entries[1..], if !m[t].write || t in written then written else written + {t}, s);
      assert s in entries <==> s == t || s in entries[1..];
    }
  }

  ghost function StoredOf(m: Model, c: set<Symbol>): UserValues {
    map s | s in c && s in m :: Stored(s, m[s].curr)
  }

  /** Every symbol that would be saved can be written down. */
  ghost predicate Printable(prefix: string, k: Table, m: Model)
    requires m.Keys == k.defs.Keys
  {
    && PlainName(prefix)
    && forall s | s in k.defs && IsSaved(k, m, s) :: s.Config? && PlainName(s.name) && Recordable(s, Text(k, m, s))
  }

  lemma TextIsStored(k: Table, u: UserValues, m: Model, s: Symbol)
    requires Acyclic(k) && Solves(k, u, m) && s in k.defs && s.Config?
    requires s in m && Recordable(s, Text(k, m, s))
    ensures TextValue(s, Text(k, m, s)) == Stored(s, m[s].curr)
  {
    if s.IsLogical() {
      SolutionWellFormed(k, u, m);
      TriStringInjective(m[s].curr.tri, NO);
      TriStringInjective(m[s].curr.tri, MOD);
      TriStringInjective(m[s].curr.tri, YES);
    }
  }

  lemma SavedStep(k: Table, m: Model, entries: seq<Symbol>, written: set<Symbol>)
    requires entries != [] && forall s | s in entries :: s in k.defs && s in m && s.Config?
    ensures var s, rest, now := entries[0], entries[1..], SavedSet(k, m, entries, written);
            && (!m[s].write || s in written ==> now == SavedSet(k, m, rest, written))
            && (!IsSaved(k, m, s) ==> now == SavedSet(k, m, rest, written + {s}))
            && (IsSaved(k, m, s) && s !in written ==> now == {s} + SavedSet(k, m, rest, written + {s}))
  {
    var s, rest := entries[0], entries[1..];
    assert entries == [s] + rest;
  }

  /** Every saved symbol has one line, however many entries it has. */
  lemma {:induction false} OneLineEach(prefix: string, k: Table, m: Model, entries: seq<Symbol>, written: set<Symbol>)
    requires forall s | s in entries :: s in k.defs && s in m && s.Config?
    ensures |DefconfigLines(prefix, k, m, entries, written)| == |SavedSet(k, m, entries, written)|
  {
    if entries != [] {
      var s, rest := entries[0], entries[1..];
      var skip := !m[s].write || s in written;
      var written' := if skip then written else written + {s};
      OneLineEach(prefix, k, m, rest, written');
      SavedStep(k, m, entries, written);
      assert s !in SavedSet(k, m, rest, written + {s});
    }
  }

  lemma StoreOne(m: Model, u: UserValues, s: Symbol, c: set<Symbol>)
    requires s in m && s !in c
    ensures u + StoredOf(m, {s} + c) == u[s := Stored(s, m[s].curr)] + StoredOf(m, c)
  {
  }

  lemma {:induction false} LinesReadBack(prefix: string, k: Table, names: Names, u0: UserValues, m: Model,
                                         entries: seq<Symbol>,
                                         written: set<Symbol>, u: UserValues)
    requires Acyclic(k) && Solves(k, u0, m) && Printable(prefix, k, m) && Indexes(names, k)
    requires forall s | s in entries :: s in k.defs && s in m && s.Config?
    ensures ReadLines(prefix, names, u, DefconfigLines(prefix, k, m, entries, written))
            == u + StoredOf(m, SavedSet(k, m, entries, written))
    decreases |entries|
  {
    if entries == [] {
      assert u + StoredOf(m, SavedSet(k, m, entries, written)) == u;
    } else {
      var s, rest := entries[0], entries[1..];
      SavedStep(k, m, entries, written);
      if !m[s].write || s in written {
        LinesReadBack(prefix, k, names, u0, m, rest, written, u);
      } else if IsSaved(k, m, s) {
        var line := Record(prefix, s, Text(k, m, s));
        var others := DefconfigLines(prefix, k, m, rest, written + {s});
        RecordReadsBack(prefix, k, names, u, s, Text(k, m, s));
        TextIsStored(k, u0, m, s);
        LinesReadBack(prefix, k, names, u0, m, rest, written + {s}, u[s := Stored(s, m[s].curr)]);
        assert ([line] + others)[1..] == others;
        StoreOne(m, u, s, SavedSet(k, m, rest, written + {s}));
      } else {
        LinesReadBack(prefix, k, names, u0, m, rest, written + {s}, u);
      }
    }
  }

  /** The file as a whole: if the walk meets every saved symbol, reading the lines
      into a cleared table leaves exactly the saved user values, so evaluation
      gives the old configuration again if and only if nothing was lost. */
  lemma FileRoundTrip(prefix: string, k: Table, names: Names, u: UserValues, m: Model, m': Model, entries: seq<Symbol>)
    requires Acyclic(k) && Solves(k, u, m) && Printable(prefix, k, m) && Indexes(names, k)
    requires forall s | s in entries :: s in k.defs && s.Config?
    requires forall s | s in k.defs && IsSaved(k, m, s) :: s in entries
    requires Solves(k, ReadLines(prefix, names, map[], DefconfigLines(prefix, k, m, entries, {})), m')
    ensures m' == m <==> NothingLost(k, u, m)
  {
    LinesReadBack(prefix, k, names, u, m, entries, {}, map[]);
    assert map[] + StoredOf(m, SavedSet(k, m, entries, {})) == Saved(k, m);
    RoundTrip(k, u, m, m');
  }
}
