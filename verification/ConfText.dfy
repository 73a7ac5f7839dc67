/** The text of configuration files: quoting of strings, the two record formats,
    and reading them back (symbol.c and confdata.c). */
module ConfText {
  import opened Expr
  import opened Sequences

  // ----- sym_escape_string_value -----

  predicate IsSpecial(c: char) {
    c == '\"' || c == '\\'
  }

  function EscapeChar(c: char): string {
    if IsSpecial(c) then ['\\', c] else [c]
  }

  function EscapeBody(s: string): string {
    if s == "" then "" else EscapeChar(s[0]) + EscapeBody(s[1..])
  }

  function Escape(s: string): string {
    "\"" + EscapeBody(s) + "\""
  }

  /** strcspn(p, "\"\\"). */
  method Span(s: string, p: nat) returns (l: nat)
    requires p <= |s|
    ensures p + l <= |s|
    ensures forall i | p <= i < p + l :: !IsSpecial(s[i])
    ensures p + l < |s| ==> IsSpecial(s[p + l])
  {
    l := 0;
    while p + l < |s| && !IsSpecial(s[p + l])
      invariant p + l <= |s|
      invariant forall i | p <= i < p + l :: !IsSpecial(s[i])
    {
      l := l + 1;
    }
  }

  lemma {:induction false} EscapeBodyConcat(s: string, t: string)
    ensures EscapeBody(s + t) == EscapeBody(s) + EscapeBody(t)
  {
    if s == "" {
      assert s + t == t;
    } else {
      assert (s + t)[1..] == s[1..] + t;
      EscapeBodyConcat(s[1..], t);
    }
  }

  lemma {:induction false} EscapeBodyPlain(s: string)
    requires forall i | 0 <= i < |s| :: !IsSpecial(s[i])
    ensures EscapeBody(s) == s
  {
    if s != "" {
      EscapeBodyPlain(s[1..]);
    }
  }

  lemma EscapeChunk(s: string, p: nat, l: nat)
    requires p + l < |s|
    requires forall i | p <= i < p + l :: !IsSpecial(s[i])
    requires IsSpecial(s[p + l])
    ensures EscapeBody(s[..p + l + 1]) == EscapeBody(s[..p]) + s[p..p + l] + "\\" + [s[p + l]]
  {
    var a, b, c := s[..p], s[p..p + l], s[p + l];
    CutChunk(s, p, l);
    EscapeBodyConcat(a + b, [c]);
    EscapeBodyConcat(a, b);
    EscapeBodyPlain(b);
    EscapedSpecial(c);
    ConcatAssociative(EscapeBody(a) + b, "\\", [c]);
  }

  lemma CutChunk(s: string, p: nat, l: nat)
    requires p + l < |s|
    ensures s[..p + l + 1] == s[..p] + s[p..p + l] + [s[p + l]]
  {
  }

  lemma EscapedSpecial(c: char)
    requires IsSpecial(c)
    ensures EscapeBody([c]) == "\\" + [c]
  {
    assert [c][1..] == "";
  }

  /** The first pass of the source: the size of the buffer to allocate. */
  method EscapedSize(s: string) returns (reslen: nat)
    ensures reslen == |Escape(s)| + 1
  {
    reslen := |s| + 2 + 1;
    var p := 0;
    while true
      invariant p <= |s|
      invariant reslen == |s| - p + |EscapeBody(s[..p])| + 3
      decreases |s| - p
    {
      var l := Span(s, p);
      if p + l == |s| {
        EscapeTail(s, p);
        break;
      }
      EscapeChunk(s, p, l);
      reslen := reslen + 1;
      p := p + l + 1;
    }
  }

  /** Both passes: the buffer has exactly the size of the text and its terminator. */
  method EscapeString(s: string) returns (res: string, reslen: nat)
    ensures res == Escape(s)
    ensures reslen == |res| + 1
  {
    reslen := EscapedSize(s);
    res := "\"";
    var p := 0;
    while true
      invariant p <= |s|
      invariant res == "\"" + EscapeBody(s[..p])
      decreases |s| - p
    {
      var l := Span(s, p);
      if p + l == |s| {
        EscapeTail(s, p);
        assert "\"" + (EscapeBody(s[..p]) + s[p..]) == res + s[p..];
        res := res + s[p..p + l];
        break;
      }
      EscapeChunk(s, p, l);
      EscapeStep(res, EscapeBody(s[..p]), s[p..p + l], s[p + l]);
      res := res + s[p..p + l];
      res := res + "\\";
      res := res + [s[p + l]];
      p := p + l + 1;
    }
    res := res + "\"";
  }

  lemma EscapeStep(res: string, done: string, chunk: string, c: char)
    requires res == "\"" + done
    ensures res + chunk + "\\" + [c] == "\"" + (done + chunk + "\\" + [c])
  {
  }

  lemma EscapeTail(s: string, p: nat)
    requires p <= |s|
    requires forall i | p <= i < |s| :: !IsSpecial(s[i])
    ensures EscapeBody(s) == EscapeBody(s[..p]) + s[p..]
  {
    PlainFrom(s, p);
    CutBody(s, p);
  }

  lemma CutBody(s: string, p: nat)
    requires p <= |s|
    ensures EscapeBody(s) == EscapeBody(s[..p]) + EscapeBody(s[p..])
  {
    Cut(s, p);
    EscapeBodyConcat(s[..p], s[p..]);
  }

  lemma Cut(s: string, p: nat)
    requires p <= |s|
    ensures s[..p] + s[p..] == s
  {
  }

  lemma {:induction false} PlainFrom(s: string, p: nat)
    requires p <= |s|
    requires forall i | p <= i < |s| :: !IsSpecial(s[i])
    ensures EscapeBody(s[p..]) == s[p..]
    decreases |s| - p
  {
    if p < |s| {
      assert s[p..][0] == s[p] && s[p..][1..] == s[p + 1..];
      PlainFrom(s, p + 1);
    }
  }

  // ----- the in-place unescaping loop of conf_set_sym_val -----

  /** The value up to the closing quote; None if there is no such quote. */
  function Unescape(s: string): Option<string> {
    if s == "" || s == "\\" then None
    else if s[0] == '\"' then Some("")
    else if s[0] == '\\' then Prepend(s[1], Unescape(s[2..]))
    else Prepend(s[0], Unescape(s[1..]))
  }

  function Prepend(c: char, s: Option<string>): Option<string> {
    if s.None? then None else Some([c] + s.value)
  }

  lemma UnescapeChar(c: char, rest: string)
    ensures Unescape(EscapeChar(c) + rest) == Prepend(c, Unescape(rest))
  {
    var x := EscapeChar(c) + rest;
    if IsSpecial(c) {
      assert |x| >= 2 && x[0] == '\\' && x[1] == c && x[2..] == rest;
    } else {
      assert x != "" && x[0] == c && x[1..] == rest;
    }
  }

  lemma EscapedHead(s: string, t: string)
    requires s != ""
    ensures EscapeBody(s) + t == EscapeChar(s[0]) + (EscapeBody(s[1..]) + t)
  {
    ConcatAssociative(EscapeChar(s[0]), EscapeBody(s[1..]), t);
  }

  lemma {:induction false} UnescapeUpTo(s: string, t: string)
    requires t != "" && t[0] == '\"'
    ensures Unescape(EscapeBody(s) + t) == Some(s)
  {
    if s == "" {
      assert EscapeBody(s) + t == t && t != "\\" && Unescape(t) == Some("");
    } else {
      EscapedHead(s, t);
      UnescapeChar(s[0], EscapeBody(s[1..]) + t);
      UnescapeUpTo(s[1..], t);
      assert [s[0]] + s[1..] == s;
    }
  }

  lemma UnescapeEscape(s: string, t: string)
    ensures Unescape(EscapeBody(s) + "\"" + t) == Some(s)
  {
    assert EscapeBody(s) + "\"" + t == EscapeBody(s) + ("\"" + t);
    UnescapeUpTo(s, "\"" + t);
  }

  lemma UnescapeQuoted(s: string)
    ensures Escape(s) != "" && Escape(s)[0] == '\"' && Unescape(Escape(s)[1..]) == Some(s)
  {
    assert Escape(s)[1..] == EscapeBody(s) + "\"" + "";
    UnescapeEscape(s, "");
  }

  /** A zero-terminated string: the buffer holds `z` characters from `p` on. */
  ghost predicate Terminated(a: array<char>, p: nat, z: nat)
    reads a
  {
    p <= z < a.Length && a[z] == '\0' && forall i | p <= i < z :: a[i] != '\0'
  }

  function PrependAll(s: string, t: Option<string>): Option<string> {
    if t.None? then None else Some(s + t.value)
  }

  lemma PrependNothing(t: Option<string>)
    ensures PrependAll("", t) == t
  {
    if t.Some? {
      assert "" + t.value == t.value;
    }
  }

  lemma {:induction false} UnescapePlain(s: string, l: nat)
    requires l <= |s|
    requires forall i | 0 <= i < l :: !IsSpecial(s[i])
    ensures Unescape(s) == PrependAll(s[..l], Unescape(s[l..]))
  {
    if l == 0 {
      assert s[0..] == s;
      assert s[..0] == "";
      PrependNothing(Unescape(s));
    } else {
      UnescapePlain(s[1..], l - 1);
      assert Unescape(s) == Prepend(s[0], Unescape(s[1..]));
      assert s[1..][l - 1..] == s[l..];
      assert s[..l] == [s[0]] + s[1..][..l - 1];
      PrependAllStep(s[0], s[1..][..l - 1], Unescape(s[l..]));
    }
  }

  lemma PrependAllStep(c: char, s: string, t: Option<string>)
    ensures Prepend(c, PrependAll(s, t)) == PrependAll([c] + s, t)
  {
    if t.Some? {
      assert [c] + (s + t.value) == ([c] + s) + t.value;
    }
  }

  lemma PrependAllTwice(s: string, s': string, t: Option<string>)
    ensures PrependAll(s, PrependAll(s', t)) == PrependAll(s + s', t)
  {
    if t.Some? {
      assert s + (s' + t.value) == (s + s') + t.value;
    }
  }

  /** strpbrk(p, "\"\\"), stopping at the terminator `z`. */
  method FindSpecial(a: array<char>, p: nat, ghost z: nat) returns (q: nat)
    requires Terminated(a, p, z)
    ensures p <= q <= z
    ensures NoSpecial(a[p..z], q - p)
    ensures if q == z then a[q] == '\0' else IsSpecial(a[q])
  {
    q := p;
    while a[q] != '\0' && !IsSpecial(a[q])
      invariant p <= q <= z
      invariant forall i | p <= i < q :: !IsSpecial(a[i])
      decreases z - q
    {
      q := q + 1;
    }
  }

  /** The first `l` characters are neither quotes nor backslashes. */
  predicate NoSpecial(s: string, l: nat) {
    l <= |s| && forall i | 0 <= i < l :: !IsSpecial(s[i])
  }

  /** memmove(q, q + 1, strlen(q)) within the text that starts at `p`. */
  method DropChar(a: array<char>, q: nat, ghost p: nat, ghost z: nat)
    requires Terminated(a, p, z) && p <= q < z
    modifies a
    ensures Terminated(a, p, z - 1)
    ensures a[p..z - 1] == old(a[p..z])[..q - p] + old(a[p..z])[q - p + 1..]
    ensures forall i | 0 <= i < p :: a[i] == old(a[i])
    ensures a[z] == '\0'
  {
    var n := q;
    while a[n] != '\0'
      invariant q <= n <= z
      decreases z - n
    {
      n := n + 1;
    }
    ghost var was := a[p..z];
    forall i | q <= i < n {
      a[i] := a[i + 1];
    }
    ghost var now, left := a[p..z - 1], was[..q - p] + was[q - p + 1..];
    assert n == z && |now| == |left|;
    forall k | 0 <= k < |now| ensures now[k] == left[k] {
      assert now[k] == a[p + k] && left[k] == if k < q - p then was[k] else was[k + 1];
    }
    assert now == left;
  }

  /** Of the text `w` the first `k` characters are final.  The next special
      character, `l` further on, is a backslash, and it is dropped. */
  lemma UnescapeBackslash(w: string, k: nat, l: nat)
    requires k + l < |w| && w[k + l] == '\\' && NoSpecial(w[k..], l)
    ensures k + l + 1 == |w| ==> Unescape(w[k..]) == None
    ensures k + l + 1 < |w| ==>
              var w' := w[..k + l] + w[k + l + 1..];
              PrependAll(w[..k], Unescape(w[k..])) == PrependAll(w'[..k + l + 1], Unescape(w'[k + l + 1..]))
  {
    var s := w[k..];
    UnescapePlain(s, l);
    var t := s[l..];
    if k + l + 1 == |w| {
      assert t == "\\";
    } else {
      var c, u := w[k + l + 1], Unescape(w[k + l + 2..]);
      assert t[0] == '\\' && t[1] == c && t[2..] == w[k + l + 2..] && t != "\\";
      assert Unescape(t) == PrependAll([c], u);
      PrependAllTwice(s[..l], [c], u);
      PrependAllTwice(w[..k], s[..l] + [c], u);
      var w' := w[..k + l] + w[k + l + 1..];
      assert w'[..k + l + 1] == w[..k] + (s[..l] + [c]);
      assert w'[k + l + 1..] == w[k + l + 2..];
    }
  }

  lemma UnescapeUnclosed(s: string)
    requires NoSpecial(s, |s|)
    ensures Unescape(s) == None
  {
    UnescapePlain(s, |s|);
  }

  /** The first `k` characters of `w` are final, and unescaping the others completes
      the goal. */
  ghost predicate Progress(w: string, k: nat, goal: Option<string>) {
    k <= |w| && goal == PrependAll(w[..k], Unescape(w[k..]))
  }

  lemma UnescapeQuote(w: string, k: nat, l: nat, goal: Option<string>)
    requires Progress(w, k, goal)
    requires k + l < |w| && w[k + l] == '\"' && NoSpecial(w[k..], l)
    ensures goal == Some(w[..k + l])
  {
    UnescapePlain(w[k..], l);
    assert Unescape(w[k..][l..]) == Some("");
    PrependAllTwice(w[..k], w[k..][..l], Some(""));
    assert w[..k] + w[k..][..l] + "" == w[..k + l];
  }

  /** The scan stands at `p2` of the text that starts at `p` and ends at `end`.
      The terminator it will meet is at `stop`: the end, or, after a backslash at
      the very end, the old terminator just behind it. */
  ghost predicate Scanning(a: array<char>, p: nat, p2: nat, end: nat, stop: nat, goal: Option<string>)
    reads a
  {
    && p <= p2 <= stop && p <= end < a.Length && Terminated(a, p2, stop)
    && (stop == end ==> Terminated(a, p, end) && Progress(a[p..end], p2 - p, goal))
    && (stop != end ==> p2 == stop && goal == None)
  }

  /** The backslash branch, for a backslash at `q`. */
  method DropBackslash(a: array<char>, q: nat, ghost p: nat, ghost p2: nat, ghost end: nat, ghost goal: Option<string>)
    returns (ghost stop: nat)
    requires Terminated(a, p, end) && p <= p2 <= q < end && a[q] == '\\'
    requires Progress(a[p..end], p2 - p, goal) && NoSpecial(a[p2..end], q - p2)
    modifies a
    ensures Scanning(a, p, q + 1, end - 1, stop, goal) && stop <= end
    ensures forall i | 0 <= i < p :: a[i] == old(a[i])
  {
    ghost var w := a[p..end];
    assert w[p2 - p..] == a[p2..end];
    UnescapeBackslash(w, p2 - p, q - p2);
    DropChar(a, q, p, end);
    stop := if q + 1 < end then end - 1 else end;
  }

  /** The closing quote, at `q`, becomes the terminator. */
  method CloseQuote(a: array<char>, q: nat, ghost p: nat, ghost p2: nat, ghost end: nat, ghost goal: Option<string>)
    requires Terminated(a, p, end) && p <= p2 <= q < end && a[q] == '\"'
    requires Progress(a[p..end], p2 - p, goal) && NoSpecial(a[p2..end], q - p2)
    modifies a
    ensures Terminated(a, p, q) && goal == Some(a[p..q])
    ensures forall i | 0 <= i < p :: a[i] == old(a[i])
  {
    ghost var w := a[p..end];
    assert w[p2 - p..] == a[p2..end];
    UnescapeQuote(w, p2 - p, q - p2, goal);
    ghost var kept := a[p..q];
    assert w[..q - p] == kept;
    a[q] := '\0';
    assert forall i | p <= i < q :: a[i] == kept[i - p];
    assert a[p..q] == kept;
  }

  /** From the character after the opening quote: every backslash is removed by
      moving the rest of the buffer down, and the closing quote becomes the new
      terminator, at `end`. */
  method UnescapeInPlace(a: array<char>, p: nat, ghost z: nat) returns (ok: bool, ghost end: nat)
    requires Terminated(a, p, z)
    modifies a
    ensures ok <==> Unescape(old(a[p..z])).Some?
    ensures ok ==> Terminated(a, p, end) && end <= z && Unescape(old(a[p..z])) == Some(a[p..end])
    ensures forall i | 0 <= i < p :: a[i] == old(a[i])
  {
    ghost var goal := Unescape(a[p..z]);
    var p2 := p;
    end := z;
    ghost var stop := z;
    ScanStarts(a, p, z);
    while true
      invariant Scanning(a, p, p2, end, stop, goal) && stop <= z && end <= z
      invariant forall i | 0 <= i < p :: a[i] == old(a[i])
      decreases stop - p2
    {
      var q := FindSpecial(a, p2, stop);
      if a[q] == '\0' {
        NoSpecialLeft(a, p, p2, end, stop, goal);
        return false, end;
      }
      SpecialMet(a, p, p2, end, stop, q, goal);
      if a[q] == '\"' {
        CloseQuote(a, q, p, p2, end, goal);
        return true, q;
      }
      stop := DropBackslash(a, q, p, p2, end, goal);
      end := end - 1;
      p2 := q + 1;
    }
  }

  lemma ScanStarts(a: array<char>, p: nat, z: nat)
    requires Terminated(a, p, z)
    ensures Scanning(a, p, p, z, z, Unescape(a[p..z]))
  {
    PrependNothing(Unescape(a[p..z]));
    assert a[p..z][..0] == "" && a[p..z][0..] == a[p..z];
  }

  /** A special character is met within the text that is still terminated at its end. */
  lemma SpecialMet(a: array<char>, p: nat, p2: nat, end: nat, stop: nat, q: nat, goal: Option<string>)
    requires Scanning(a, p, p2, end, stop, goal) && p2 <= q < stop && NoSpecial(a[p2..stop], q - p2)
    ensures stop == end && Terminated(a, p, end) && q < end && Progress(a[p..end], p2 - p, goal)
    ensures NoSpecial(a[p2..end], q - p2)
  {
  }

  lemma NoSpecialLeft(a: array<char>, p: nat, p2: nat, end: nat, stop: nat, goal: Option<string>)
    requires p <= p2 <= stop < a.Length && p <= end < a.Length
    requires NoSpecial(a[p2..stop], stop - p2)
    requires stop == end ==> Progress(a[p..end], p2 - p, goal)
    requires stop != end ==> goal == None
    ensures goal == None
  {
    if stop == end {
      var w := a[p..end];
      assert w[p2 - p..] == a[p2..stop];
      UnescapeUnclosed(w[p2 - p..]);
    }
  }
}
