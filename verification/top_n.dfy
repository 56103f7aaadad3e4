/**
 * `process_file` and `print_n_largest`: `heapq.nlargest(n, records,
 * key=number)`, whose documented meaning is
 * `sorted(records, key=number, reverse=True)[:n]` with Python's stable sort,
 * followed by echoing the ids in that order.
 */
module TopN {
  import opened Wrappers
  import opened Text
  import opened RecordStream

  /** Ordered by number, largest first. */
  predicate NonIncreasing(s: seq<Record>) {
    forall i, j :: 0 <= i < j < |s| ==> s[i].number >= s[j].number
  }

  function Min(a: int, b: int): int {
    if a <= b then a else b
  }

  /**
   * Puts `x` into a list ordered largest first, after every record whose
   * number is at least `x`'s: a record arriving later loses ties.
   */
  function InsertDesc(x: Record, s: seq<Record>): seq<Record> {
    if s == [] then [x]
    else if s[0].number >= x.number then [s[0]] + InsertDesc(x, s[1..])
    else [x] + s
  }

  /**
   * `sorted(s, key=number, reverse=True)`, built by inserting the records in
   * input order.
   */
  function SortDesc(s: seq<Record>): seq<Record> {
    if s == [] then [] else InsertDesc(s[|s| - 1], SortDesc(s[..|s| - 1]))
  }

  /** A list ordered largest first whose head is at least `h` stays so with `h` in front. */
  lemma ConsNonIncreasing(h: Record, t: seq<Record>)
    requires NonIncreasing(t)
    requires forall j :: 0 <= j < |t| ==> t[j].number <= h.number
    ensures NonIncreasing([h] + t)
  {
    var s := [h] + t;
    forall i, j | 0 <= i < j < |s| ensures s[i].number >= s[j].number {
      assert s[j] == t[j - 1];
      if i > 0 {
        assert s[i] == t[i - 1];
      }
    }
  }

  /** Inserting adds exactly `x`: the other records are kept, each as often as before. */
  lemma {:induction false} InsertDescPermutes(x: Record, s: seq<Record>)
    ensures |InsertDesc(x, s)| == |s| + 1
    ensures multiset(InsertDesc(x, s)) == multiset(s) + multiset{x}
    decreases |s|
  {
    if s != [] && s[0].number >= x.number {
      InsertDescPermutes(x, s[1..]);
      assert InsertDesc(x, s) == [s[0]] + InsertDesc(x, s[1..]);
      assert s == [s[0]] + s[1..];
    }
  }

  /** Inserting into a list ordered largest first keeps it so. */
  lemma {:induction false} InsertDescOrders(x: Record, s: seq<Record>)
    requires NonIncreasing(s)
    ensures NonIncreasing(InsertDesc(x, s))
    decreases |s|
  {
    if s != [] {
      if s[0].number >= x.number {
        var tail := InsertDesc(x, s[1..]);
        assert NonIncreasing(s[1..]);
        InsertDescOrders(x, s[1..]);
        InsertDescPermutes(x, s[1..]);
        assert forall j :: 0 <= j < |s[1..]| ==> s[1..][j].number <= s[0].number;
        BoundSurvivesInsert(s[0], x, s[1..], tail);
        assert InsertDesc(x, s) == [s[0]] + tail;
        ConsNonIncreasing(s[0], tail);
      } else {
        assert InsertDesc(x, s) == [x] + s;
        ConsNonIncreasing(x, s);
      }
    }
  }

  /** A bound on every record of `r` and on `x` bounds every record of a list holding exactly those. */
  lemma BoundSurvivesInsert(h: Record, x: Record, r: seq<Record>, tail: seq<Record>)
    requires x.number <= h.number
    requires forall j :: 0 <= j < |r| ==> r[j].number <= h.number
    requires multiset(tail) == multiset(r) + multiset{x}
    ensures forall j :: 0 <= j < |tail| ==> tail[j].number <= h.number
  {
    forall j | 0 <= j < |tail| ensures tail[j].number <= h.number {
      assert tail[j] in multiset(tail);
      if tail[j] != x {
        assert tail[j] in multiset(r);
        var m :| 0 <= m < |r| && r[m] == tail[j];
      }
    }
  }

  /** The sort keeps every record, each as often as it occurs. */
  lemma {:induction false} SortDescPermutes(s: seq<Record>)
    ensures |SortDesc(s)| == |s| && multiset(SortDesc(s)) == multiset(s)
    decreases |s|
  {
    if s != [] {
      var p, x := s[..|s| - 1], s[|s| - 1];
      SortDescPermutes(p);
      InsertDescPermutes(x, SortDesc(p));
      assert s == p + [x];
      PermutationStep(p, x, SortDesc(p), SortDesc(s));
    }
  }

  lemma PermutationStep(p: seq<Record>, x: Record, sp: seq<Record>, ins: seq<Record>)
    requires |sp| == |p| && multiset(sp) == multiset(p)
    requires |ins| == |sp| + 1 && multiset(ins) == multiset(sp) + multiset{x}
    ensures |ins| == |p + [x]| && multiset(ins) == multiset(p + [x])
  {
  }

  /** The sort orders the records largest first. */
  lemma {:induction false} SortDescOrders(s: seq<Record>)
    ensures NonIncreasing(SortDesc(s))
    decreases |s|
  {
    if s != [] {
      SortDescOrders(s[..|s| - 1]);
      InsertDescOrders(s[|s| - 1], SortDesc(s[..|s| - 1]));
    }
  }

  /** `nlargest(n, s, key=number)`. */
  function NLargest(s: seq<Record>, n: nat): (r: seq<Record>)
    ensures |r| == Min(n, |s|) && |r| <= n
  {
    SortDescPermutes(s);
    SortDesc(s)[..Min(n, |s|)]
  }

  /** The records carrying number `k`, in their order in `s`. */
  function WithNumber(s: seq<Record>, k: int): seq<Record> {
    if s == [] then []
    else WithNumber(s[..|s| - 1], k) + (if s[|s| - 1].number == k then [s[|s| - 1]] else [])
  }

  lemma {:induction false} WithNumberAppend(a: seq<Record>, b: seq<Record>, k: int)
    ensures WithNumber(a + b, k) == WithNumber(a, k) + WithNumber(b, k)
    decreases |b|
  {
    if b == [] {
      assert a + b == a;
    } else {
      assert (a + b)[..|a + b| - 1] == a + b[..|b| - 1];
      WithNumberAppend(a, b[..|b| - 1], k);
    }
  }

  lemma {:induction false} WithNumberBelow(s: seq<Record>, k: int)
    requires forall i :: 0 <= i < |s| ==> s[i].number < k
    ensures WithNumber(s, k) == []
    decreases |s|
  {
    if s != [] {
      WithNumberBelow(s[..|s| - 1], k);
    }
  }

  lemma WithNumberCons(x: Record, s: seq<Record>, k: int)
    ensures WithNumber([x] + s, k) == (if x.number == k then [x] else []) + WithNumber(s, k)
  {
    WithNumberAppend([x], s, k);
    assert [x][..0] == [];
  }

  lemma {:induction false} InsertDescWithNumber(x: Record, t: seq<Record>, k: int)
    requires NonIncreasing(t)
    ensures WithNumber(InsertDesc(x, t), k) == WithNumber(t, k) + (if x.number == k then [x] else [])
    decreases |t|
  {
    var c := if x.number == k then [x] else [];
    if t == [] {
      assert [x][..0] == [];
    } else if t[0].number >= x.number {
      assert NonIncreasing(t[1..]);
      InsertDescWithNumber(x, t[1..], k);
      assert InsertDesc(x, t) == [t[0]] + InsertDesc(x, t[1..]);
      assert t == [t[0]] + t[1..];
      WithNumberConsStep(t[0], InsertDesc(x, t[1..]), t[1..], c, k);
    } else {
      assert InsertDesc(x, t) == [x] + t;
      WithNumberBeforeLarger(x, t, k);
    }
  }

  /** A record larger than the head of an ordered list is the last one of its number in front of it. */
  lemma WithNumberBeforeLarger(x: Record, t: seq<Record>, k: int)
    requires NonIncreasing(t) && t != [] && t[0].number < x.number
    ensures WithNumber([x] + t, k) == WithNumber(t, k) + (if x.number == k then [x] else [])
  {
    WithNumberCons(x, t, k);
    if x.number == k {
      assert forall i :: 0 <= i < |t| ==> t[i].number < k by {
        forall i | 0 <= i < |t| ensures t[i].number < k {
          assert t[0].number >= t[i].number;
        }
      }
      WithNumberBelow(t, k);
    }
  }

  /** Putting the same record in front of two lists keeps a relation between their records of number `k`. */
  lemma WithNumberConsStep(h: Record, u: seq<Record>, v: seq<Record>, c: seq<Record>, k: int)
    requires WithNumber(u, k) == WithNumber(v, k) + c
    ensures WithNumber([h] + u, k) == WithNumber([h] + v, k) + c
  {
    WithNumberCons(h, u, k);
    WithNumberCons(h, v, k);
  }

  /**
   * The sort is stable: for every number, the records carrying it keep their
   * input order.
   */
  lemma {:induction false} SortDescIsStable(s: seq<Record>, k: int)
    ensures WithNumber(SortDesc(s), k) == WithNumber(s, k)
    decreases |s|
  {
    if s != [] {
      SortDescIsStable(s[..|s| - 1], k);
      SortDescOrders(s[..|s| - 1]);
      InsertDescWithNumber(s[|s| - 1], SortDesc(s[..|s| - 1]), k);
    }
  }

  /**
   * A list ordered largest first is fixed by the order, per number, of the
   * records it holds: two such lists that agree on every `WithNumber` are equal.
   */
  lemma {:induction false} SortedByNumberUnique(u: seq<Record>, v: seq<Record>)
    requires NonIncreasing(u) && NonIncreasing(v)
    requires forall k :: WithNumber(u, k) == WithNumber(v, k)
    ensures u == v
    decreases |u| + |v|
  {
    if u == [] && v == [] {
    } else if u == [] {
      assert v == [v[0]] + v[1..];
      WithNumberCons(v[0], v[1..], v[0].number);
    } else if v == [] {
      assert u == [u[0]] + u[1..];
      WithNumberCons(u[0], u[1..], u[0].number);
    } else {
      var m, m' := u[0].number, v[0].number;
      assert u == [u[0]] + u[1..] && v == [v[0]] + v[1..];
      if m' < m {
        WithNumberBelow(v, m);
        WithNumberCons(u[0], u[1..], m);
      }
      if m < m' {
        WithNumberBelow(u, m');
        WithNumberCons(v[0], v[1..], m');
      }
      assert m == m';
      WithNumberCons(u[0], u[1..], m);
      WithNumberCons(v[0], v[1..], m);
      assert WithNumber(u, m)[0] == u[0] && WithNumber(v, m)[0] == v[0];
      assert u[0] == v[0];
      forall k ensures WithNumber(u[1..], k) == WithNumber(v[1..], k) {
        WithNumberCons(u[0], u[1..], k);
        WithNumberCons(v[0], v[1..], k);
        var c := if m == k then [u[0]] else [];
        assert WithNumber(u[1..], k) == (c + WithNumber(u[1..], k))[|c|..];
        assert WithNumber(v[1..], k) == (c + WithNumber(v[1..], k))[|c|..];
      }
      SortedByNumberUnique(u[1..], v[1..]);
    }
  }

  /**
   * `SortDesc` is Python's `sorted(s, key=number, reverse=True)`: the one
   * list ordered largest first that keeps, for every number, the input order.
   */
  lemma SortDescIsTheStableSort(s: seq<Record>, t: seq<Record>)
    requires NonIncreasing(t)
    requires forall k :: WithNumber(t, k) == WithNumber(s, k)
    ensures t == SortDesc(s)
  {
    forall k ensures WithNumber(t, k) == WithNumber(SortDesc(s), k) {
      SortDescIsStable(s, k);
    }
    SortDescOrders(s);
    SortedByNumberUnique(t, SortDesc(s));
  }

  /** The selection has `min(n, |s|)` records, ordered largest first. */
  lemma NLargestIsOrdered(s: seq<Record>, n: nat)
    ensures |NLargest(s, n)| == Min(n, |s|)
    ensures NonIncreasing(NLargest(s, n))
  {
    var t := SortDesc(s);
    SortDescPermutes(s);
    SortDescOrders(s);
    var r := NLargest(s, n);
    forall i, j | 0 <= i < j < |r| ensures r[i].number >= r[j].number {
      assert r[i] == t[i] && r[j] == t[j];
    }
  }

  /** The selected records come from `s`, and are all of `s` when `n >= |s|`. */
  lemma NLargestIsDrawnFromInput(s: seq<Record>, n: nat)
    ensures multiset(NLargest(s, n)) <= multiset(s)
    ensures n >= |s| ==> multiset(NLargest(s, n)) == multiset(s)
  {
    var t := SortDesc(s);
    SortDescPermutes(s);
    var r := NLargest(s, n);
    assert t == r + t[|r|..];
  }

  /** Every record left out has a number no larger than that of any record kept. */
  lemma NLargestLeavesOutSmaller(s: seq<Record>, n: nat)
    ensures var r := NLargest(s, n);
      forall x, y :: x in multiset(s) - multiset(r) && y in r ==> x.number <= y.number
  {
    SortDescPermutes(s);
    SortDescOrders(s);
    PrefixDominates(SortDesc(s), Min(n, |s|));
  }

  /** In a list ordered largest first, nothing after a prefix beats anything in it. */
  lemma PrefixDominates(t: seq<Record>, m: nat)
    requires m <= |t| && NonIncreasing(t)
    ensures forall x, y :: x in multiset(t) - multiset(t[..m]) && y in t[..m] ==> x.number <= y.number
  {
    var r, rest := t[..m], t[m..];
    assert multiset(t) - multiset(r) == multiset(rest) by {
      assert t == r + rest;
    }
    forall i, j | 0 <= i < |r| && 0 <= j < |rest| ensures rest[j].number <= r[i].number {
      assert t[i] == r[i] && t[m + j] == rest[j];
    }
    DominatesByIndex(r, rest);
  }

  lemma DominatesByIndex(r: seq<Record>, rest: seq<Record>)
    requires forall i, j :: 0 <= i < |r| && 0 <= j < |rest| ==> rest[j].number <= r[i].number
    ensures forall x, y :: x in multiset(rest) && y in r ==> x.number <= y.number
  {
    forall x: Record, y: Record | x in multiset(rest) && y in r ensures x.number <= y.number {
      assert x in rest;
      var j :| 0 <= j < |rest| && rest[j] == x;
      var i :| 0 <= i < |r| && r[i] == y;
    }
  }

  /**
   * Ties go to the records seen first: for every number, the kept records
   * carrying it are the first ones carrying it in the input, in input order.
   */
  lemma NLargestTiesFirstSeen(s: seq<Record>, n: nat, k: int)
    ensures var kept := WithNumber(NLargest(s, n), k);
      |kept| <= |WithNumber(s, k)| && kept == WithNumber(s, k)[..|kept|]
  {
    var t := SortDesc(s);
    SortDescPermutes(s);
    var r := NLargest(s, n);
    assert t == r + t[|r|..];
    WithNumberAppend(r, t[|r|..], k);
    SortDescIsStable(s, k);
  }

  /** Keeps the first `n` records of `s`. */
  function Take(s: seq<Record>, n: nat): (r: seq<Record>)
    ensures |r| == Min(n, |s|)
  {
    s[..Min(n, |s|)]
  }

  lemma {:induction false} TakeInsertDesc(x: Record, t: seq<Record>, n: nat)
    ensures Take(InsertDesc(x, Take(t, n)), n) == Take(InsertDesc(x, t), n)
    decreases |t|
  {
    if t != [] && n > 0 {
      var p := Take(t, n);
      TakeCons(t[0], t[1..], n);
      assert t == [t[0]] + t[1..];
      assert p == [t[0]] + Take(t[1..], n - 1);
      if t[0].number >= x.number {
        TakeInsertDesc(x, t[1..], n - 1);
        assert InsertDesc(x, p) == [t[0]] + InsertDesc(x, Take(t[1..], n - 1));
        assert InsertDesc(x, t) == [t[0]] + InsertDesc(x, t[1..]);
        TakeCons(t[0], InsertDesc(x, Take(t[1..], n - 1)), n);
        TakeCons(t[0], InsertDesc(x, t[1..]), n);
      } else {
        assert InsertDesc(x, p) == [x] + p;
        assert InsertDesc(x, t) == [x] + t;
        TakeCons(x, p, n);
        TakeCons(x, t, n);
        TakeTake(t, n, n - 1);
      }
    }
  }

  lemma TakeCons(h: Record, u: seq<Record>, n: nat)
    requires n > 0
    ensures Take([h] + u, n) == [h] + Take(u, n - 1)
  {
  }

  lemma TakeTake(t: seq<Record>, n: nat, m: nat)
    requires m <= n
    ensures Take(Take(t, n), m) == Take(t, m)
  {
  }

  /** One more record: the new selection follows from the old one alone. */
  lemma NLargestSnoc(s: seq<Record>, x: Record, n: nat)
    ensures NLargest(s + [x], n) == Take(InsertDesc(x, NLargest(s, n)), n)
  {
    assert (s + [x])[..|s + [x]| - 1] == s;
    SortDescPermutes(s);
    SortDescPermutes(s + [x]);
    TakeInsertDesc(x, SortDesc(s), n);
  }

  /**
   * The bounded selection of `process_file`: one pass over the records,
   * keeping at most `n` of them at any time.
   */
  method SelectTopN(records: seq<Record>, n: nat) returns (top: seq<Record>)
    ensures top == NLargest(records, n)
    ensures |top| <= n
  {
    top := [];
    var i := 0;
    while i < |records|
      invariant 0 <= i <= |records|
      invariant top == NLargest(records[..i], n)
      invariant |top| <= n
    {
      NLargestSnoc(records[..i], records[i], n);
      assert records[..i + 1] == records[..i] + [records[i]];
      top := Take(InsertDesc(records[i], top), n);
      i := i + 1;
    }
    assert records[..i] == records;
  }

  /** `process_file`: decode the whole file, then select. */
  function ProcessFile(content: string, n: nat): (r: Result<seq<Record>, ParseError>)
    ensures r.Ok? <==> DecodeFile(content).Ok?
    ensures r.Ok? ==> |r.value| == Min(n, |Lines(content)|)
    ensures r.Err? ==> r.error == DecodeFile(content).error
  {
    match DecodeFile(content)
    case Err(e) => Err(e)
    case Ok(records) => Ok(NLargest(records, n))
  }

  /** `print_n_largest`: one id per line, in the order of the selection. */
  method PrintNLargest(top: seq<Record>) returns (lines: seq<string>)
    ensures |lines| == |top|
    ensures forall i :: 0 <= i < |top| ==> lines[i] == top[i].id
  {
    lines := [];
    for i := 0 to |top|
      invariant |lines| == i
      invariant forall j :: 0 <= j < i ==> lines[j] == top[j].id
    {
      lines := lines + [top[i].id];
    }
  }

  /** Four records whose middle two tie on the largest number. */
  lemma SortWithTie(a: Record, b: Record, b2: Record, c: Record)
    requires a.number < b.number == b2.number && c.number <= a.number
    ensures SortDesc([a, b, b2, c]) == [b, b2, a, c]
    ensures NLargest([a, b, b2, c], 2) == [b, b2]
  {
    assert SortDesc([a]) == [a] by {
      assert [a][..0] == [];
    }
    assert SortDesc([a, b]) == [b, a] by {
      assert [a, b][..1] == [a];
    }
    assert SortDesc([a, b, b2]) == [b, b2, a] by {
      assert [a, b, b2][..2] == [a, b];
      assert [b, a][1..] == [a];
      assert InsertDesc(b2, [a]) == [b2, a];
    }
    assert [a, b, b2, c][..3] == [a, b, b2];
    assert InsertDesc(c, [a]) == [a, c] by {
      assert [a][1..] == [];
    }
    assert InsertDesc(c, [b2, a]) == [b2, a, c] by {
      assert [b2, a][1..] == [a];
    }
    assert InsertDesc(c, [b, b2, a]) == [b, b2, a, c] by {
      assert [b, b2, a][1..] == [b2, a];
    }
  }

  /** The four-line file of the tie example decodes to its four records. */
  lemma TieFileDecodes()
    ensures DecodeFile("a 5\nb 9\nb2 9\nc 1\n")
         == Ok([Record("a", 5), Record("b", 9), Record("b2", 9), Record("c", 1)])
  {
    var a, b, b2, c := Record("a", 5), Record("b", 9), Record("b2", 9), Record("c", 1);
    assert "a 5\nb 9\nb2 9\nc 1\n" == EncodeLine(a) + EncodeLine(b) + EncodeLine(b2) + EncodeLine(c) by {
      SingleDigitLine("a", 5);
      SingleDigitLine("b", 9);
      SingleDigitLine("b2", 9);
      SingleDigitLine("c", 1);
    }
    TieIdsAreTokens([a, b, b2, c]);
    DecodeFourLines(a, b, b2, c);
  }

  /** Four records written one per line decode back to themselves. */
  lemma DecodeFourLines(a: Record, b: Record, c: Record, d: Record)
    requires IsToken(a.id) && IsToken(b.id) && IsToken(c.id) && IsToken(d.id)
    ensures DecodeFile(EncodeLine(a) + EncodeLine(b) + EncodeLine(c) + EncodeLine(d)) == Ok([a, b, c, d])
  {
    var xs := [a, b, c, d];
    assert EncodeLines(xs) == [EncodeLine(a), EncodeLine(b), EncodeLine(c), EncodeLine(d)];
    ConcatFour(EncodeLine(a), EncodeLine(b), EncodeLine(c), EncodeLine(d));
    DecodeFileOfEncode(xs);
  }

  lemma TieIdsAreTokens(xs: seq<Record>)
    requires xs == [Record("a", 5), Record("b", 9), Record("b2", 9), Record("c", 1)]
    ensures forall i :: 0 <= i < |xs| ==> IsToken(xs[i].id)
  {
    forall i | 0 <= i < |xs| ensures IsToken(xs[i].id) {
      assert IsSpace(xs[i].id[0]) == false;
    }
  }

  lemma SingleDigitLine(id: string, d: int)
    requires 0 <= d < 10
    ensures EncodeLine(Record(id, d)) == id + " " + [Digit(d)] + "\n"
  {
  }

  lemma ConcatFour(a: string, b: string, c: string, d: string)
    ensures Concat([a, b, c, d]) == a + b + c + d
  {
    assert [d][1..] == [];
    assert Concat([d]) == d + [] == d;
    assert [c, d][1..] == [d];
    assert Concat([c, d]) == c + d;
    assert [b, c, d][1..] == [c, d];
    assert Concat([b, c, d]) == b + (c + d);
    assert [a, b, c, d][1..] == [b, c, d];
    assert Concat([a, b, c, d]) == a + (b + (c + d));
  }

  /**
   * The file `a 5`, `b 9`, `b2 9`, `c 1` with n = 2 selects `b` then `b2`:
   * both 9s, in the order they were read.
   */
  lemma TieScenario()
    ensures ProcessFile("a 5\nb 9\nb2 9\nc 1\n", 2) == Ok([Record("b", 9), Record("b2", 9)])
  {
    TieFileDecodes();
    SortWithTie(Record("a", 5), Record("b", 9), Record("b2", 9), Record("c", 1));
  }
}
