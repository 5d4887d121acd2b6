/** Physical lines of a byte file, as src/echoes/benchmarks/openbible.py splits them and names their newline. */
module ByteLines {
  type Byte = x: int | 0 <= x < 256
  type Bytes = seq<Byte>

  const CR: Byte := 13
  const LF: Byte := 10

  function IsBreak(b: Byte): bool { b == CR || b == LF }

  /** Where the first line break stands, or the end. */
  function BreakAt(d: Bytes): (k: nat)
    ensures k <= |d| && (forall i | 0 <= i < k :: !IsBreak(d[i])) && (k < |d| ==> IsBreak(d[k]))
  {
    if d == [] || IsBreak(d[0]) then 0 else 1 + BreakAt(d[1..])
  }

  /** The break itself: CR LF together, or either alone. */
  function BreakBytes(d: Bytes): (r: Bytes)
    ensures BreakAt(d) + |r| <= |d| && r == d[BreakAt(d)..BreakAt(d) + |r|]
    ensures r in [[], [CR, LF], [CR], [LF]] && (r == [] <==> BreakAt(d) == |d|)
  {
    var k := BreakAt(d);
    if k == |d| then []
    else if d[k] == CR && k + 1 < |d| && d[k + 1] == LF then [CR, LF]
    else [d[k]]
  }

  function Rest(d: Bytes): Bytes { d[BreakAt(d) + |BreakBytes(d)|..] }

  /** `data.splitlines()` */
  function SplitLines(d: Bytes): seq<Bytes> {
    if d == [] then [] else [d[..BreakAt(d)]] + SplitLines(Rest(d))
  }

  /** The break after each line, empty for a last line without one. */
  function Breaks(d: Bytes): seq<Bytes> {
    if d == [] then [] else [BreakBytes(d)] + Breaks(Rest(d))
  }

  /** `data.count(bytes([b]))` */
  function CountByte(d: Bytes, b: Byte): nat {
    if d == [] then 0 else (if d[0] == b then 1 else 0) + CountByte(d[1..], b)
  }

  /** `data.count(b"\r\n")` */
  function CountPairs(d: Bytes): nat {
    if |d| < 2 then 0 else (if d[0] == CR && d[1] == LF then 1 else 0) + CountPairs(d[1..])
  }

  datatype Newline = CrLf | BareLf | BareCr | Mixed | NoNewline

  function One(condition: bool): nat { if condition then 1 else 0 }

  /** `_split_binary_lines`, its newline name. */
  function NewlineOf(d: Bytes): Newline {
    var crlf := CountPairs(d);
    var lf := CountByte(d, LF) - crlf;
    var cr := CountByte(d, CR) - crlf;
    if One(crlf > 0) + One(lf > 0) + One(cr > 0) > 1 then Mixed
    else if crlf != 0 then CrLf
    else if lf != 0 then BareLf
    else if cr != 0 then BareCr
    else NoNewline
  }

  /** `data.endswith((b"\n", b"\r"))` */
  predicate EndsWithBreak(d: Bytes) { d != [] && IsBreak(d[|d| - 1]) }

  /** Lines with their breaks put back. */
  function Interleave(lines: seq<Bytes>, breaks: seq<Bytes>): Bytes
    requires |lines| == |breaks|
  {
    if lines == [] then [] else lines[0] + breaks[0] + Interleave(lines[1..], breaks[1..])
  }

  lemma {:induction false} NothingIsLost(d: Bytes)
    ensures |Breaks(d)| == |SplitLines(d)| && Interleave(SplitLines(d), Breaks(d)) == d
  {
    if d != [] {
      NothingIsLost(Rest(d));
      InterleaveCons(d[..BreakAt(d)], BreakBytes(d), SplitLines(Rest(d)), Breaks(Rest(d)));
      PiecesOf(d, BreakAt(d), BreakBytes(d));
    }
  }

  lemma {:induction false} InterleaveCons(line: Bytes, ending: Bytes, lines: seq<Bytes>, breaks: seq<Bytes>)
    requires |lines| == |breaks|
    ensures Interleave([line] + lines, [ending] + breaks) == line + ending + Interleave(lines, breaks)
  {
    assert ([line] + lines)[1..] == lines && ([ending] + breaks)[1..] == breaks;
  }

  lemma {:induction false} PiecesOf(d: Bytes, k: nat, piece: Bytes)
    requires k + |piece| <= |d| && piece == d[k..k + |piece|]
    ensures d[..k] + piece + d[k + |piece|..] == d
  {
  }

  predicate OnlyLastMayBeEmpty(breaks: seq<Bytes>) { forall i | 0 <= i < |breaks| - 1 :: breaks[i] != [] }

  lemma {:induction false} OneMoreBreak(first: Bytes, breaks: seq<Bytes>)
    requires first != [] && OnlyLastMayBeEmpty(breaks)
    ensures OnlyLastMayBeEmpty([first] + breaks)
    ensures breaks != [] ==> ([first] + breaks)[|breaks|] == breaks[|breaks| - 1]
  {
  }

  lemma {:induction false} LastBreakCloses(d: Bytes)
    requires d != [] && Rest(d) == []
    ensures BreakBytes(d) != [] <==> EndsWithBreak(d)
  {
    assert BreakAt(d) + |BreakBytes(d)| == |d|;
    if BreakBytes(d) != [] { assert d[|d| - 1] == BreakBytes(d)[|BreakBytes(d)| - 1]; }
  }

  lemma {:induction false} RestEndsLikeFile(d: Bytes)
    requires d != [] && Rest(d) != []
    ensures EndsWithBreak(Rest(d)) <==> EndsWithBreak(d)
  {
    assert d[|d| - 1] == Rest(d)[|Rest(d)| - 1];
  }

  lemma {:induction false} OnlyLastIsOpen(d: Bytes)
    requires d != []
    ensures |Breaks(d)| >= 1 && OnlyLastMayBeEmpty(Breaks(d))
    ensures (Breaks(d)[|Breaks(d)| - 1] != []) <==> EndsWithBreak(d)
  {
    if Rest(d) != [] {
      OnlyLastIsOpen(Rest(d));
      OneMoreBreak(BreakBytes(d), Breaks(Rest(d)));
      RestEndsLikeFile(d);
    } else {
      LastBreakCloses(d);
      assert Breaks(d) == [BreakBytes(d)];
    }
  }

  function CountOf(breaks: seq<Bytes>, b: Bytes): nat {
    if breaks == [] then 0 else (if breaks[0] == b then 1 else 0) + CountOf(breaks[1..], b)
  }

  lemma {:induction false} SkipByte(d: Bytes, b: Byte, k: nat)
    requires k <= |d| && forall i | 0 <= i < k :: d[i] != b
    ensures CountByte(d, b) == CountByte(d[k..], b)
  {
    if k > 0 {
      SkipByte(d[1..], b, k - 1);
      assert d[1..][k - 1..] == d[k..];
    } else {
      assert d[0..] == d;
    }
  }

  lemma {:induction false} SkipPairs(d: Bytes, k: nat)
    requires k <= |d| && forall i | 0 <= i < k :: d[i] != CR
    ensures CountPairs(d) == CountPairs(d[k..])
  {
    if k > 0 {
      SkipPairs(d[1..], k - 1);
      assert d[1..][k - 1..] == d[k..];
    } else {
      assert d[0..] == d;
    }
  }

  lemma {:induction false} LineCounts(d: Bytes)
    requires d != []
    ensures CountPairs(d) == CountPairs(Rest(d)) + One(BreakBytes(d) == [CR, LF])
    ensures CountByte(d, LF) == CountByte(Rest(d), LF) + One(BreakBytes(d) == [CR, LF] || BreakBytes(d) == [LF])
    ensures CountByte(d, CR) == CountByte(Rest(d), CR) + One(BreakBytes(d) == [CR, LF] || BreakBytes(d) == [CR])
  {
    var k := BreakAt(d);
    var tail := d[k..];
    SkipByte(d, LF, k);
    SkipByte(d, CR, k);
    SkipPairs(d, k);
    if tail != [] {
      assert tail[1..] == d[k + 1..];
      if BreakBytes(d) == [CR, LF] {
        assert tail[1..][1..] == Rest(d) && tail[1] == LF;
        SkipPairs(tail[1..], 1);
      } else {
        assert tail[1..] == Rest(d);
        if tail[0] == LF { SkipPairs(tail, 1); }
      }
    } else {
      assert Rest(d) == [];
    }
  }

  /** The three counters count the breaks of each kind. */
  lemma {:induction false} CountersCountBreaks(d: Bytes)
    ensures CountPairs(d) == CountOf(Breaks(d), [CR, LF])
    ensures CountByte(d, LF) - CountPairs(d) == CountOf(Breaks(d), [LF])
    ensures CountByte(d, CR) - CountPairs(d) == CountOf(Breaks(d), [CR])
  {
    if d != [] {
      LineCounts(d);
      CountersCountBreaks(Rest(d));
      assert Breaks(d)[1..] == Breaks(Rest(d));
    }
  }

  lemma {:induction false} CountedIsListed(breaks: seq<Bytes>, b: Bytes)
    ensures CountOf(breaks, b) > 0 <==> b in breaks
  {
    if breaks != [] {
      CountedIsListed(breaks[1..], b);
      assert breaks == [breaks[0]] + breaks[1..];
    }
  }

  function NewlineBytes(n: Newline): Bytes {
    match n
    case CrLf => [CR, LF]
    case BareLf => [LF]
    case BareCr => [CR]
    case Mixed => []
    case NoNewline => []
  }

  lemma {:induction false} BreaksAreBreaks(d: Bytes)
    ensures forall b | b in Breaks(d) :: b in [[], [CR, LF], [CR], [LF]]
  {
    if d != [] { BreaksAreBreaks(Rest(d)); }
  }

  /** The newline is named mixed exactly when two kinds of break occur; otherwise every break is the named one. */
  lemma {:induction false} NewlineNamesBreaks(d: Bytes)
    ensures NewlineOf(d) == Mixed <==>
            exists a, b :: a in Breaks(d) && b in Breaks(d) && a != [] && b != [] && a != b
    ensures NewlineOf(d) != Mixed ==> forall b | b in Breaks(d) :: b == [] || b == NewlineBytes(NewlineOf(d))
  {
    CountersCountBreaks(d);
    CountedIsListed(Breaks(d), [CR, LF]);
    CountedIsListed(Breaks(d), [LF]);
    CountedIsListed(Breaks(d), [CR]);
    BreaksAreBreaks(d);
    forall a, b | a in Breaks(d) && b in Breaks(d) && a != [] && b != [] && a != b
      ensures NewlineOf(d) == Mixed
    {
    }
  }

  function Closed(lines: seq<Bytes>, newline: Bytes, final: bool): Bytes {
    if lines == [] then []
    else if |lines| == 1 then lines[0] + if final then newline else []
    else lines[0] + newline + Closed(lines[1..], newline, final)
  }

  lemma {:induction false} UniformIsClosed(lines: seq<Bytes>, breaks: seq<Bytes>, newline: Bytes, final: bool)
    requires |lines| == |breaks|
    requires forall i | 0 <= i < |lines| :: breaks[i] == if i < |lines| - 1 || final then newline else []
    ensures Interleave(lines, breaks) == Closed(lines, newline, final)
  {
    if |lines| > 1 {
      UniformIsClosed(lines[1..], breaks[1..], newline, final);
    } else if |lines| == 1 {
      assert lines[1..] == [] && breaks[1..] == [];
      assert Interleave(lines[1..], breaks[1..]) == [];
    }
  }

  lemma {:induction false} BreaksAreUniform(d: Bytes)
    requires d != [] && NewlineOf(d) != Mixed
    ensures forall i | 0 <= i < |Breaks(d)| ::
              Breaks(d)[i] == if i < |Breaks(d)| - 1 || EndsWithBreak(d) then NewlineBytes(NewlineOf(d)) else []
  {
    OnlyLastIsOpen(d);
    NewlineNamesBreaks(d);
    forall i | 0 <= i < |Breaks(d)|
      ensures Breaks(d)[i] == if i < |Breaks(d)| - 1 || EndsWithBreak(d) then NewlineBytes(NewlineOf(d)) else []
    {
      assert Breaks(d)[i] in Breaks(d);
    }
  }

  /** Unless newlines are mixed, the lines, the newline's name and the final-newline flag determine every byte of
      the file. */
  lemma {:induction false} LinesDetermineFile(d: Bytes)
    requires NewlineOf(d) != Mixed
    ensures Closed(SplitLines(d), NewlineBytes(NewlineOf(d)), EndsWithBreak(d)) == d
  {
    if d != [] {
      NothingIsLost(d);
      BreaksAreUniform(d);
      UniformIsClosed(SplitLines(d), Breaks(d), NewlineBytes(NewlineOf(d)), EndsWithBreak(d));
    }
  }
}
