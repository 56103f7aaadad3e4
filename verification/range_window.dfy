/**
 * The byte windows `get_remote_file` asks for: `make_range_header` builds a
 * `Range: bytes=c-(c+s)` header, whose last position is inclusive
 * (section 14.1.2 of RFC 9110), and the offset then advances by `s + 1`.
 */
module RangeWindow {
  import opened Wrappers
  import opened Text

  /** The positions a `Range` header asks for, first and last, both included. */
  datatype ByteRange = ByteRange(first: int, last: int)

  /** One HTTP request header: its name and the byte range its value spells. */
  datatype Header = Header(name: string, range: ByteRange)

  /** `make_range_header(c, s)`: the bytes from `c` to `c + s`, both included. */
  function MakeRangeHeader(currentChunk: int, chunkSize: int): (h: Header)
    ensures h.name == "Range"
    ensures h.range.first == currentChunk && h.range.last - h.range.first == chunkSize
  {
    Header("Range", ByteRange(currentChunk, currentChunk + chunkSize))
  }

  /** The header value as sent: `bytes=` then the first position, `-`, the last. */
  function Format(r: ByteRange): (v: string)
    ensures |v| >= 9 && v[..6] == "bytes="
  {
    "bytes=" + IntToString(r.first) + "-" + IntToString(r.last)
  }

  /** The position of the first `c` in `s`, or `|s|` when there is none. */
  function IndexOf(s: string, c: char): (i: nat)
    ensures i <= |s|
    ensures i < |s| ==> s[i] == c
    ensures forall k :: 0 <= k < i ==> s[k] != c
  {
    if s == [] || s[0] == c then 0 else 1 + IndexOf(s[1..], c)
  }

  /**
   * How a server reads a single `bytes=first-last` range value: the first and
   * last positions, or `None` when the value has another shape.
   */
  function ParseByteRange(v: string): Option<ByteRange> {
    if |v| < 6 || v[..6] != "bytes=" then None
    else
      var rest := v[6..];
      var i := IndexOf(rest, '-');
      if i < |rest| && IsDigits(rest[..i]) && IsDigits(rest[i + 1..]) then
        Some(ByteRange(DigitsValue(rest[..i]), DigitsValue(rest[i + 1..])))
      else None
  }

  /**
   * For a non-negative offset and size, the header names `Range` and its
   * value, as sent, reads back as exactly the window `[c, c + s]`.
   */
  lemma RangeHeaderRoundTrip(currentChunk: nat, chunkSize: nat)
    ensures MakeRangeHeader(currentChunk, chunkSize).name == "Range"
    ensures ParseByteRange(Format(MakeRangeHeader(currentChunk, chunkSize).range))
         == Some(ByteRange(currentChunk, currentChunk + chunkSize))
  {
    var first := NatToString(currentChunk);
    var last := NatToString(currentChunk + chunkSize);
    assert Format(MakeRangeHeader(currentChunk, chunkSize).range) == "bytes=" + first + "-" + last;
    ParseDigitRange(first, last);
    DigitsValueOfNatToString(currentChunk);
    DigitsValueOfNatToString(currentChunk + chunkSize);
  }

  /** Two digit strings around a `-`, after `bytes=`, read back as the two numbers they spell. */
  lemma ParseDigitRange(first: string, last: string)
    requires IsDigits(first) && IsDigits(last)
    ensures ParseByteRange("bytes=" + first + "-" + last) == Some(ByteRange(DigitsValue(first), DigitsValue(last)))
  {
    var rest := first + "-" + last;
    var v := "bytes=" + rest;
    assert "bytes=" + first + "-" + last == v;
    assert v[..6] == "bytes=" && v[6..] == rest;
    assert rest[|first|] == '-';
    assert forall k :: 0 <= k < |first| ==> rest[k] == first[k] && rest[k] != '-';
    assert IndexOf(rest, '-') == |first|;
    assert rest[..|first|] == first && rest[|first| + 1..] == last;
  }

  /** The offset of the `k`-th request: `FILE_START`, advanced `k` times by `s + 1`. */
  function Offset(fileStart: int, chunkSize: int, k: nat): int {
    if k == 0 then fileStart else Offset(fileStart, chunkSize, k - 1) + chunkSize + 1
  }

  /** The `k`-th window starts `k` whole windows of `s + 1` bytes after `FILE_START`. */
  lemma {:induction false} OffsetIsWholeWindows(fileStart: int, chunkSize: int, k: nat)
    ensures Offset(fileStart, chunkSize, k) == fileStart + k * (chunkSize + 1)
  {
    if k > 0 {
      OffsetIsWholeWindows(fileStart, chunkSize, k - 1);
    }
  }

  /**
   * With a non-negative size the windows tile the file: every position from
   * `FILE_START` on lies in exactly one window `[Offset(k), Offset(k) + s]`.
   */
  lemma WindowsTile(fileStart: int, chunkSize: nat, p: int)
    requires p >= fileStart
    ensures exists k: nat :: Offset(fileStart, chunkSize, k) <= p <= Offset(fileStart, chunkSize, k) + chunkSize
    ensures forall j: nat, k: nat ::
      Offset(fileStart, chunkSize, j) <= p <= Offset(fileStart, chunkSize, j) + chunkSize &&
      Offset(fileStart, chunkSize, k) <= p <= Offset(fileStart, chunkSize, k) + chunkSize
      ==> j == k
  {
    var w := chunkSize + 1;
    var k: nat := (p - fileStart) / w;
    DivisionBounds(p - fileStart, w);
    OffsetIsWholeWindows(fileStart, chunkSize, k);
    assert Offset(fileStart, chunkSize, k) <= p <= Offset(fileStart, chunkSize, k) + chunkSize;
    forall j: nat, k': nat |
      Offset(fileStart, chunkSize, j) <= p <= Offset(fileStart, chunkSize, j) + chunkSize &&
      Offset(fileStart, chunkSize, k') <= p <= Offset(fileStart, chunkSize, k') + chunkSize
      ensures j == k'
    {
      OffsetIsWholeWindows(fileStart, chunkSize, j);
      OffsetIsWholeWindows(fileStart, chunkSize, k');
      SameWindow(j, k', w, p - fileStart);
    }
  }

  /** Two windows of `w` positions that both hold `q` are the same window. */
  lemma SameWindow(j: nat, k: nat, w: nat, q: int)
    requires w > 0
    requires j * w <= q < j * w + w && k * w <= q < k * w + w
    ensures j == k
  {
    if j < k {
      MulMonotone(j + 1, k, w);
    }
    if k < j {
      MulMonotone(k + 1, j, w);
    }
  }

  lemma DivisionBounds(a: nat, w: nat)
    requires w > 0
    ensures (a / w) * w <= a < (a / w) * w + w
  {
  }

  lemma MulMonotone(a: nat, b: nat, w: nat)
    requires a <= b
    ensures a * w <= b * w
  {
  }

  /** The headers of the first `count` requests, in the order they are sent. */
  function Requests(fileStart: int, chunkSize: int, count: nat): (hs: seq<Header>)
    ensures |hs| == count
  {
    if count == 0 then []
    else Requests(fileStart, chunkSize, count - 1) + [MakeRangeHeader(Offset(fileStart, chunkSize, count - 1), chunkSize)]
  }

  lemma RequestsNext(fileStart: int, chunkSize: int, count: nat)
    ensures Requests(fileStart, chunkSize, count + 1)
         == Requests(fileStart, chunkSize, count) + [MakeRangeHeader(Offset(fileStart, chunkSize, count), chunkSize)]
    ensures Offset(fileStart, chunkSize, count + 1) == Offset(fileStart, chunkSize, count) + chunkSize + 1
  {
  }

  /** Request `k` asks for the window at `Offset(k)`. */
  lemma {:induction false} RequestsAt(fileStart: int, chunkSize: int, count: nat)
    ensures forall k :: 0 <= k < count ==>
      Requests(fileStart, chunkSize, count)[k] == MakeRangeHeader(Offset(fileStart, chunkSize, k), chunkSize)
  {
    if count > 0 {
      RequestsAt(fileStart, chunkSize, count - 1);
    }
  }

  /**
   * Consecutive requests are adjacent: each asks for `s + 1` bytes, and the
   * byte after the last one request `k` asks for is the first one request
   * `k + 1` asks for, so nothing is skipped and nothing is fetched twice.
   */
  lemma ConsecutiveRequestsAdjacent(fileStart: int, chunkSize: int, count: nat, k: nat)
    requires k + 1 < count
    ensures var hs := Requests(fileStart, chunkSize, count);
      && hs[k].range.last - hs[k].range.first == chunkSize
      && hs[k].range.last + 1 == hs[k + 1].range.first
  {
    RequestsAt(fileStart, chunkSize, count);
  }
}
