/**
 * The Python string built-ins the pipeline leans on, over `string`:
 * `str.strip()`, `re.split('\\s+', ...)`, `int(...)`, `str(int)` and the
 * line splitting done by a binary file's `readline()`.
 */
module Text {
  import opened Wrappers

  /** Python's `str.isspace`, which is also what `\s` matches in a `str` pattern. */
  predicate IsSpace(c: char) {
    var u := c as int;
    (9 <= u <= 13) || (28 <= u <= 32) || u == 0x85 || u == 0xA0 || u == 0x1680
    || (0x2000 <= u <= 0x200A) || u == 0x2028 || u == 0x2029 || u == 0x202F
    || u == 0x205F || u == 0x3000
  }

  predicate AllSpace(s: string) {
    forall k :: 0 <= k < |s| ==> IsSpace(s[k])
  }

  predicate NoSpace(s: string) {
    forall k :: 0 <= k < |s| ==> !IsSpace(s[k])
  }

  /** Neither the first nor the last character is whitespace. */
  predicate NoEdgeSpace(s: string) {
    s == [] || (!IsSpace(s[0]) && !IsSpace(s[|s| - 1]))
  }

  /** `str.lstrip()`: drops leading whitespace. */
  function StripLeft(s: string): (r: string)
    ensures |r| <= |s|
    ensures s != [] && IsSpace(s[0]) ==> |r| < |s|
  {
    if s != [] && IsSpace(s[0]) then StripLeft(s[1..]) else s
  }

  /** `str.rstrip()`: drops trailing whitespace. */
  function StripRight(s: string): string {
    if s != [] && IsSpace(s[|s| - 1]) then StripRight(s[..|s| - 1]) else s
  }

  /** `str.strip()`. */
  function Strip(s: string): string {
    StripRight(StripLeft(s))
  }

  /** `lstrip` keeps the suffix after the leading whitespace run, which starts with no whitespace. */
  lemma {:induction false} StripLeftSpec(s: string)
    ensures var r := StripLeft(s);
      r == s[|s| - |r|..] && AllSpace(s[..|s| - |r|]) && (r == [] || !IsSpace(r[0]))
    decreases |s|
  {
    if s != [] && IsSpace(s[0]) {
      StripLeftSpec(s[1..]);
    }
  }

  /** `rstrip` keeps the prefix before the trailing whitespace run, which ends with no whitespace. */
  lemma {:induction false} StripRightSpec(s: string)
    ensures var r := StripRight(s);
      |r| <= |s| && r == s[..|r|] && AllSpace(s[|r|..]) && (r == [] || !IsSpace(r[|r| - 1]))
    decreases |s|
  {
    if s != [] && IsSpace(s[|s| - 1]) {
      StripRightSpec(s[..|s| - 1]);
      var r := StripRight(s);
      assert s[|r|..] == s[..|s| - 1][|r|..] + [s[|s| - 1]];
    }
  }

  /** `s` is whitespace, then what `strip` keeps, then whitespace; the kept part has no edge whitespace. */
  lemma StripSpec(s: string)
    ensures var r := Strip(s); var i := |s| - |StripLeft(s)|;
      NoEdgeSpace(r) && i + |r| <= |s| && r == s[i..i + |r|] && AllSpace(s[..i]) && AllSpace(s[i + |r|..])
  {
    var l := StripLeft(s);
    assert Strip(s) == StripRight(l);
    StripLeftSpec(s);
    StripRightSpec(l);
    CutAroundMiddle(s, l, StripRight(l));
  }

  /** A suffix `l` of `s` after whitespace, and a prefix `r` of `l` before whitespace, cut `s` in three. */
  lemma CutAroundMiddle(s: string, l: string, r: string)
    requires |l| <= |s| && l == s[|s| - |l|..] && AllSpace(s[..|s| - |l|]) && (l == [] || !IsSpace(l[0]))
    requires |r| <= |l| && r == l[..|r|] && AllSpace(l[|r|..]) && (r == [] || !IsSpace(r[|r| - 1]))
    ensures var i := |s| - |l|;
      NoEdgeSpace(r) && i + |r| <= |s| && r == s[i..i + |r|] && AllSpace(s[..i]) && AllSpace(s[i + |r|..])
  {
    var i := |s| - |l|;
    assert s[i + |r|..] == l[|r|..];
    assert s[i..i + |r|] == l[..|r|];
    if r != [] {
      assert r[0] == l[0];
    }
  }

  lemma {:induction false} StripLeftOf(pre: string, m: string)
    requires AllSpace(pre) && (m == [] || !IsSpace(m[0]))
    ensures StripLeft(pre + m) == m
    decreases |pre|
  {
    if pre != [] {
      assert (pre + m)[1..] == pre[1..] + m;
      StripLeftOf(pre[1..], m);
    }
  }

  lemma {:induction false} StripRightOf(m: string, suf: string)
    requires AllSpace(suf) && (m == [] || !IsSpace(m[|m| - 1]))
    ensures StripRight(m + suf) == m
    decreases |suf|
  {
    if suf != [] {
      assert (m + suf)[..|m + suf| - 1] == m + suf[..|suf| - 1];
      StripRightOf(m, suf[..|suf| - 1]);
    }
  }

  /**
   * `Strip` is the only way to cut `s` into whitespace, a middle without
   * edge whitespace, and whitespace: the middle is what `str.strip()` keeps.
   */
  lemma StripUnique(pre: string, m: string, suf: string)
    requires AllSpace(pre) && AllSpace(suf) && NoEdgeSpace(m)
    ensures Strip(pre + m + suf) == m
  {
    if m == [] {
      assert pre + m + suf == pre + suf;
      StripLeftOf(pre + suf, []);
      assert pre + suf + [] == pre + suf;
    } else {
      assert pre + m + suf == pre + (m + suf);
      StripLeftOf(pre, m + suf);
      StripRightOf(m, suf);
    }
  }

  /** Index of the first whitespace character, or `|s|` when there is none. */
  function FirstSpace(s: string): (i: nat)
    ensures i <= |s|
    ensures i < |s| ==> IsSpace(s[i])
  {
    if s == [] || IsSpace(s[0]) then 0 else 1 + FirstSpace(s[1..])
  }

  /**
   * `re.split('\\s+', s)`: the pieces of `s` between maximal runs of
   * whitespace. A leading or trailing run gives an empty first or last piece,
   * and the empty string gives `[""]`.
   */
  function Fields(s: string): (r: seq<string>)
    ensures |r| >= 1
    decreases |s|
  {
    var i := FirstSpace(s);
    if i == |s| then [s] else [s[..i]] + Fields(StripLeft(s[i..]))
  }

  lemma {:induction false} FirstSpaceSpec(s: string)
    ensures NoSpace(s[..FirstSpace(s)])
    decreases |s|
  {
    if s != [] && !IsSpace(s[0]) {
      FirstSpaceSpec(s[1..]);
      assert s[..FirstSpace(s)] == [s[0]] + s[1..][..FirstSpace(s[1..])];
    }
  }

  /** No piece of a split contains whitespace. */
  lemma {:induction false} FieldsHaveNoSpace(s: string)
    ensures forall i :: 0 <= i < |Fields(s)| ==> NoSpace(Fields(s)[i])
    decreases |s|
  {
    var i := FirstSpace(s);
    FirstSpaceSpec(s);
    if i < |s| {
      FieldsHaveNoSpace(StripLeft(s[i..]));
    }
  }

  /** The tokens joined by single spaces. */
  function Join(ts: seq<string>): string
    requires |ts| >= 1
  {
    if |ts| == 1 then ts[0] else ts[0] + " " + Join(ts[1..])
  }

  lemma {:induction false} JoinStartsWithToken(ts: seq<string>)
    requires |ts| >= 1 && NoSpace(ts[0]) && ts[0] != []
    ensures Join(ts) != [] && !IsSpace(Join(ts)[0])
  {
  }

  /** Splitting reverses joining, for non-empty tokens without whitespace. */
  lemma {:induction false} FieldsOfJoin(ts: seq<string>)
    requires |ts| >= 1
    requires forall i :: 0 <= i < |ts| ==> ts[i] != [] && NoSpace(ts[i])
    ensures Fields(Join(ts)) == ts
    decreases |ts|
  {
    var s := Join(ts);
    var t := ts[0];
    if |ts| == 1 {
      FirstSpaceOf(t, []);
      assert t + [] == t;
    } else {
      var rest := Join(ts[1..]);
      assert s == t + (" " + rest);
      FirstSpaceOf(t, " " + rest);
      JoinStartsWithToken(ts[1..]);
      assert s[|t|..] == [' '] + rest;
      StripLeftOf([' '], rest);
      FieldsOfJoin(ts[1..]);
    }
  }

  /** Two tokens separated by any non-empty run of whitespace split into exactly those two. */
  lemma FieldsOfTwo(a: string, sep: string, b: string)
    requires a != [] && NoSpace(a) && b != [] && NoSpace(b)
    requires sep != [] && AllSpace(sep)
    ensures Fields(a + sep + b) == [a, b]
  {
    var s := a + sep + b;
    assert s == a + (sep + b);
    FirstSpaceOf(a, sep + b);
    assert s[|a|..] == sep + b;
    StripLeftOf(sep, b);
    FirstSpaceOf(b, []);
    assert b + [] == b;
  }

  lemma {:induction false} FirstSpaceOf(t: string, rest: string)
    requires NoSpace(t) && (rest == [] || IsSpace(rest[0]))
    ensures FirstSpace(t + rest) == |t| && (t + rest)[..|t|] == t
    decreases |t|
  {
    if t != [] {
      assert (t + rest)[1..] == t[1..] + rest;
      FirstSpaceOf(t[1..], rest);
    }
  }

  predicate IsDigit(c: char) {
    '0' <= c <= '9'
  }

  /** A non-empty run of ASCII decimal digits. */
  predicate IsDigits(s: string) {
    |s| > 0 && forall k :: 0 <= k < |s| ==> IsDigit(s[k])
  }

  /** The value of a run of decimal digits, most significant first. */
  function DigitsValue(s: string): nat
    requires forall k :: 0 <= k < |s| ==> IsDigit(s[k])
  {
    if s == [] then 0
    else
      assert IsDigit(s[|s| - 1]);
      DigitsValue(s[..|s| - 1]) * 10 + (s[|s| - 1] as int - '0' as int)
  }

  function Digit(d: nat): (c: char)
    requires d < 10
    ensures IsDigit(c) && c as int - '0' as int == d
  {
    ('0' as int + d) as char
  }

  /** `str(n)` for a natural number: its shortest decimal spelling. */
  function NatToString(n: nat): (r: string)
    ensures IsDigits(r)
    ensures |r| > 1 ==> r[0] != '0'
  {
    if n < 10 then [Digit(n)] else NatToString(n / 10) + [Digit(n % 10)]
  }

  /** `str(v)` for an integer: a minus sign for negative values, then the digits. */
  function IntToString(v: int): (r: string)
    ensures r != [] && NoSpace(r)
  {
    if v < 0 then "-" + NatToString(-v) else NatToString(v)
  }

  /** `int(t)` for a token: an optional sign followed by one or more digits. */
  function ParseInt(t: string): Option<int> {
    if |t| > 0 && (t[0] == '-' || t[0] == '+') then
      if IsDigits(t[1..]) then
        var magnitude: int := DigitsValue(t[1..]);
        Some(if t[0] == '-' then -magnitude else magnitude)
      else None
    else if IsDigits(t) then Some(DigitsValue(t))
    else None
  }

  lemma {:induction false} DigitsValueOfNatToString(n: nat)
    ensures DigitsValue(NatToString(n)) == n
  {
    var s := NatToString(n);
    if n < 10 {
      assert s[..|s| - 1] == [];
    } else {
      assert s[..|s| - 1] == NatToString(n / 10);
      DigitsValueOfNatToString(n / 10);
    }
  }

  /** `int(str(v)) == v`. */
  lemma ParseIntOfIntToString(v: int)
    ensures ParseInt(IntToString(v)) == Some(v)
  {
    if v < 0 {
      var d := NatToString(-v);
      DigitsValueOfNatToString(-v);
      ParseNegative(d);
      assert IntToString(v) == "-" + d;
    } else {
      var d := NatToString(v);
      DigitsValueOfNatToString(v);
      ParseDigits(d);
    }
  }

  lemma ParseNegative(d: string)
    requires IsDigits(d)
    ensures ParseInt("-" + d) == Some(-(DigitsValue(d) as int))
  {
    assert ("-" + d)[1..] == d;
  }

  lemma ParseDigits(d: string)
    requires IsDigits(d)
    ensures ParseInt(d) == Some(DigitsValue(d))
  {
    assert IsDigit(d[0]);
  }

  /** The strings joined end to end. */
  function Concat(ss: seq<string>): string {
    if ss == [] then [] else ss[0] + Concat(ss[1..])
  }

  lemma {:induction false} ConcatSnoc(ss: seq<string>, s: string)
    ensures Concat(ss + [s]) == Concat(ss) + s
    decreases |ss|
  {
    if ss != [] {
      assert (ss + [s])[1..] == ss[1..] + [s];
      ConcatSnoc(ss[1..], s);
    }
  }

  /**
   * Length of the first line of `s` as `readline()` on a binary file returns
   * it: everything up to and including the first newline, or all of `s`.
   */
  function LineEnd(s: string): (e: nat)
    ensures e <= |s|
    ensures s != [] ==> e > 0
    ensures forall k :: 0 <= k < e - 1 ==> s[k] != '\n'
    ensures e < |s| ==> s[e - 1] == '\n'
  {
    if s == [] then 0 else if s[0] == '\n' then 1 else 1 + LineEnd(s[1..])
  }

  /** A line as `readline()` returns it: not empty, with no newline before its last character. */
  predicate IsLine(l: string) {
    l != [] && forall k :: 0 <= k < |l| - 1 ==> l[k] != '\n'
  }

  /** A cutting of a text into lines: every line but the last ends with a newline. */
  predicate WellSplit(ls: seq<string>) {
    && (forall i :: 0 <= i < |ls| ==> IsLine(ls[i]))
    && (forall i :: 0 <= i < |ls| - 1 ==> ls[i][|ls[i]| - 1] == '\n')
  }

  /** The successive `readline()` results up to, not including, the first empty one. */
  function Lines(s: string): seq<string>
    decreases |s|
  {
    if s == [] then [] else [s[..LineEnd(s)]] + Lines(s[LineEnd(s)..])
  }

  /** The lines are a cutting into lines of the text they come from. */
  lemma {:induction false} LinesSplitText(s: string)
    ensures Concat(Lines(s)) == s
    ensures WellSplit(Lines(s))
    decreases |s|
  {
    if s != [] {
      var e := LineEnd(s);
      var ls := Lines(s);
      LinesSplitText(s[e..]);
      assert ls[1..] == Lines(s[e..]);
      assert s == s[..e] + s[e..];
    }
  }

  lemma {:induction false} LineEndOf(l: string, rest: string)
    requires IsLine(l) && (rest == [] || l[|l| - 1] == '\n')
    ensures LineEnd(l + rest) == |l|
    decreases |l|
  {
    var s := l + rest;
    if l[0] != '\n' {
      assert |l| > 1 || rest == [];
      if |l| > 1 {
        assert s[1..] == l[1..] + rest;
        LineEndOf(l[1..], rest);
      }
    }
  }

  /** `Lines` is the only cutting into lines: it undoes `Concat` on any of them. */
  lemma {:induction false} LinesOfConcat(ls: seq<string>)
    requires WellSplit(ls)
    ensures Lines(Concat(ls)) == ls
    decreases |ls|
  {
    if ls != [] {
      var s := Concat(ls);
      var rest := Concat(ls[1..]);
      assert s == ls[0] + rest;
      if |ls| == 1 {
        assert rest == [];
      }
      LineEndOf(ls[0], rest);
      assert s[..|ls[0]|] == ls[0] && s[|ls[0]|..] == rest;
      assert WellSplit(ls[1..]) by {
        forall i | 0 <= i < |ls[1..]| - 1 ensures ls[1..][i][|ls[1..][i]| - 1] == '\n' {
          assert ls[1..][i] == ls[i + 1];
        }
      }
      LinesOfConcat(ls[1..]);
    }
  }
}
