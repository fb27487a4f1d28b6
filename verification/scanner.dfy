/** Line splitting as a `bufio.Scanner` with the `ScanLines` split function
    and a fixed buffer does it: lines end at `\n`, a `\r` just before the
    `\n` is dropped, and a final piece without `\n` is still delivered as a
    line. A line whose bytes (before its `\n`, or up to end of data) fill
    the whole buffer stops the scan with "token too long". */
module LineScanner {
  import opened Common

  /** Index of the first newline byte, or `|data|` when there is none. */
  function NewlineIndex(data: seq<byte>): (i: nat)
    ensures i <= |data|
    ensures i < |data| ==> data[i] == NewlineByte
  {
    if |data| == 0 || data[0] == NewlineByte then 0 else 1 + NewlineIndex(data[1..])
  }

  /** No newline byte comes before the first one. */
  lemma {:induction false} NoNewlineBefore(data: seq<byte>)
    ensures forall j :: 0 <= j < NewlineIndex(data) ==> data[j] != NewlineByte
  {
    if |data| > 0 && data[0] != NewlineByte {
      NoNewlineBefore(data[1..]);
      assert forall j :: 1 <= j < NewlineIndex(data) ==> data[j] == data[1..][j - 1];
    }
  }

  /** Data that ends in a newline has a first newline inside it. */
  lemma {:induction false} NewlineIndexBound(data: seq<byte>)
    ensures EndsWithNewline(data) ==> NewlineIndex(data) < |data|
  {
    if EndsWithNewline(data) && data[0] != NewlineByte {
      NewlineIndexBound(data[1..]);
    }
  }

  /** The text of a line: its raw bytes less one trailing carriage return. */
  function DropCR(raw: seq<byte>): (line: seq<byte>)
    ensures |raw| > 0 && raw[|raw| - 1] == CarriageReturnByte ==> line + [CarriageReturnByte] == raw
    ensures !(|raw| > 0 && raw[|raw| - 1] == CarriageReturnByte) ==> line == raw
  {
    if |raw| > 0 && raw[|raw| - 1] == CarriageReturnByte then raw[..|raw| - 1] else raw
  }

  function DropCRs(raws: seq<seq<byte>>): (lines: seq<seq<byte>>)
    ensures |lines| == |raws|
    ensures forall i :: 0 <= i < |raws| ==> lines[i] == DropCR(raws[i])
  {
    if |raws| == 0 then [] else [DropCR(raws[0])] + DropCRs(raws[1..])
  }

  /** The raw pieces of `data` between newline bytes; a final piece with no
      newline after it is included when it is non-empty. */
  function Segments(data: seq<byte>): seq<seq<byte>>
    decreases |data|
  {
    if |data| == 0 then []
    else
      var i := NewlineIndex(data);
      if i < |data| then [data[..i]] + Segments(data[i + 1..]) else [data]
  }

  /** Each piece followed by a newline byte, all concatenated. */
  function Unsplit(segs: seq<seq<byte>>): seq<byte> {
    if |segs| == 0 then [] else segs[0] + [NewlineByte] + Unsplit(segs[1..])
  }

  predicate EndsWithNewline(data: seq<byte>) {
    |data| > 0 && data[|data| - 1] == NewlineByte
  }

  /** Splitting loses nothing but the absence of a final newline. */
  lemma {:induction false} SegmentsRoundTrip(data: seq<byte>)
    ensures EndsWithNewline(data) || |data| == 0 ==> Unsplit(Segments(data)) == data
    ensures !EndsWithNewline(data) && |data| > 0 ==> Unsplit(Segments(data)) == data + [NewlineByte]
    decreases |data|
  {
    if |data| > 0 {
      NewlineIndexBound(data);
      var i := NewlineIndex(data);
      if i < |data| {
        var rest := data[i + 1..];
        SegmentsUnfold(data, i);
        UnsplitCons(data[..i], Segments(rest));
        SegmentsRoundTrip(rest);
        SplitAt(data, i);
        if |rest| > 0 {
          assert rest[|rest| - 1] == data[|data| - 1];
        }
      }
    }
  }

  lemma UnsplitCons(x: seq<byte>, segs: seq<seq<byte>>)
    ensures Unsplit([x] + segs) == x + [NewlineByte] + Unsplit(segs)
  {
    assert ([x] + segs)[1..] == segs;
  }

  lemma SplitAt(data: seq<byte>, i: nat)
    requires i < |data|
    ensures data == data[..i] + [data[i]] + data[i + 1..]
  {
  }

  /** No piece contains a newline byte. */
  lemma {:induction false} SegmentsHaveNoNewline(data: seq<byte>)
    ensures forall k :: 0 <= k < |Segments(data)| ==> NewlineByte !in Segments(data)[k]
    decreases |data|
  {
    if |data| > 0 {
      var i := NewlineIndex(data);
      NoNewlineBefore(data);
      if i < |data| {
        SegmentsHaveNoNewline(data[i + 1..]);
      }
    }
  }

  lemma SegmentsUnfold(data: seq<byte>, i: nat)
    requires i < |data| && NewlineIndex(data) == i
    ensures Segments(data) == [data[..i]] + Segments(data[i + 1..])
  {
  }

  lemma AppendSlices(a: seq<byte>, b: seq<byte>, i: nat)
    requires i < |a|
    ensures (a + b)[..i] == a[..i]
    ensures (a + b)[i + 1..] == a[i + 1..] + b
  {
  }

  /** Data that ends in a newline splits independently of what follows it,
      so whole appended lines are seen as lines of their own. */
  lemma {:induction false} SegmentsAppend(a: seq<byte>, b: seq<byte>)
    requires |a| == 0 || EndsWithNewline(a)
    ensures Segments(a + b) == Segments(a) + Segments(b)
    decreases |a|
  {
    if |a| == 0 {
      assert a + b == b;
    } else {
      NewlineIndexBound(a);
      var i := NewlineIndex(a);
      var rest := a[i + 1..];
      NewlineIndexPrefix(a, b);
      AppendSlices(a, b, i);
      SegmentsUnfold(a + b, i);
      SegmentsUnfold(a, i);
      RestEndsWithNewline(a, i);
      SegmentsAppend(rest, b);
      ConsAssoc(a[..i], Segments(rest), Segments(b));
    }
  }

  lemma RestEndsWithNewline(a: seq<byte>, i: nat)
    requires EndsWithNewline(a) && i < |a|
    ensures |a[i + 1..]| == 0 || EndsWithNewline(a[i + 1..])
  {
    var rest := a[i + 1..];
    if |rest| > 0 {
      assert rest[|rest| - 1] == a[|a| - 1];
    }
  }

  lemma ConsAssoc<T>(x: T, s: seq<T>, t: seq<T>)
    ensures [x] + (s + t) == ([x] + s) + t
  {
  }

  lemma {:induction false} NewlineIndexPrefix(a: seq<byte>, b: seq<byte>)
    requires NewlineIndex(a) < |a|
    ensures NewlineIndex(a + b) == NewlineIndex(a)
  {
    if a[0] != NewlineByte {
      assert (a + b)[1..] == a[1..] + b;
      NewlineIndexPrefix(a[1..], b);
    }
  }

  // ---------------------------------------------------------------------
  // Scanning with a bounded buffer

  /** The lines a scan delivered, and whether it stopped on an error. */
  datatype Scan = Scan(lines: seq<seq<byte>>, failed: bool)

  /** The scan over `data` with a buffer of `bufferSize` bytes. */
  function ScanLines(data: seq<byte>, bufferSize: nat): Scan {
    if bufferSize == 0 then Scan([], true) else ScanFrom(data, bufferSize)
  }

  function ScanFrom(data: seq<byte>, bufferSize: nat): Scan
    requires bufferSize > 0
    decreases |data|
  {
    if |data| == 0 then Scan([], false)
    else
      var i := NewlineIndex(data);
      if i >= bufferSize then Scan([], true)
      else if i < |data| then
        var rest := ScanFrom(data[i + 1..], bufferSize);
        Scan([DropCR(data[..i])] + rest.lines, rest.failed)
      else Scan([DropCR(data)], false)
  }

  /** Index of the first piece that does not fit the buffer, or the number
      of pieces when all fit. */
  function FirstTooLong(segs: seq<seq<byte>>, bufferSize: nat): (k: nat)
    ensures k <= |segs|
    ensures forall j :: 0 <= j < k ==> |segs[j]| < bufferSize
    ensures k < |segs| ==> |segs[k]| >= bufferSize
  {
    if |segs| == 0 || |segs[0]| >= bufferSize then 0 else 1 + FirstTooLong(segs[1..], bufferSize)
  }

  /** The scan delivers, in order, the text of every piece up to the first
      one that does not fit the buffer, and fails exactly when such a piece
      exists (or when the buffer is empty). */
  lemma {:induction false} ScanMatchesSegments(data: seq<byte>, bufferSize: nat)
    ensures var segs := Segments(data);
            var k := FirstTooLong(segs, bufferSize);
            && ScanLines(data, bufferSize).lines == (if bufferSize == 0 then [] else DropCRs(segs[..k]))
            && ScanLines(data, bufferSize).failed == (bufferSize == 0 || k < |segs|)
    decreases |data|
  {
    if bufferSize > 0 && |data| > 0 {
      var i := NewlineIndex(data);
      var segs := Segments(data);
      if i < |data| {
        var rest := data[i + 1..];
        ScanMatchesSegments(rest, bufferSize);
        assert segs == [data[..i]] + Segments(rest);
        if i < bufferSize {
          var k := FirstTooLong(Segments(rest), bufferSize);
          assert FirstTooLong(segs, bufferSize) == 1 + k;
          assert segs[..1 + k] == [data[..i]] + Segments(rest)[..k];
          assert DropCRs(segs[..1 + k]) == [DropCR(data[..i])] + DropCRs(Segments(rest)[..k]);
        }
      }
    }
  }

  /** When every piece fits, all of them are delivered and the scan ends
      without error. */
  lemma ScanDeliversAll(data: seq<byte>, bufferSize: nat)
    requires bufferSize > 0
    requires forall k :: 0 <= k < |Segments(data)| ==> |Segments(data)[k]| < bufferSize
    ensures ScanLines(data, bufferSize) == Scan(DropCRs(Segments(data)), false)
  {
    ScanMatchesSegments(data, bufferSize);
    var segs := Segments(data);
    var k := FirstTooLong(segs, bufferSize);
    assert segs[..k] == segs;
  }

  /** Empty data yields no line; it fails only for an empty buffer. */
  lemma ScanEmpty(bufferSize: nat)
    ensures ScanLines([], bufferSize) == Scan([], bufferSize == 0)
  {
  }
}
