/** The length-framed stream a list of payloads is digested as (src/echoes/benchmarks/openbible.py). */
module CanonicalStreams {
  import opened Wrappers
  import opened ByteLines

  const LENGTH_BYTES: nat := 8

  function Power(w: nat): nat { if w == 0 then 1 else 256 * Power(w - 1) }

  /** `n.to_bytes(w, "big")` */
  function BigEndian(n: nat, w: nat): (r: Bytes)
    ensures |r| == w
  {
    if w == 0 then [] else BigEndian(n / 256, w - 1) + [n % 256]
  }

  function ValueOf(b: Bytes): nat {
    if b == [] then 0 else 256 * ValueOf(b[..|b| - 1]) + b[|b| - 1]
  }

  lemma {:induction false} BigEndianKeepsValue(n: nat, w: nat)
    requires n < Power(w)
    ensures ValueOf(BigEndian(n, w)) == n
  {
    if w > 0 {
      BigEndianKeepsValue(n / 256, w - 1);
      assert BigEndian(n, w)[..w - 1] == BigEndian(n / 256, w - 1);
    }
  }

  lemma {:induction false} ValueKeepsBytes(b: Bytes)
    ensures BigEndian(ValueOf(b), |b|) == b
  {
    if b != [] {
      var front, last := b[..|b| - 1], b[|b| - 1];
      ValueKeepsBytes(front);
      assert ValueOf(b) / 256 == ValueOf(front) && ValueOf(b) % 256 == last;
      assert b == front + [last];
    }
  }

  predicate Fits(payload: Bytes) { |payload| < Power(LENGTH_BYTES) }

  predicate AllFit(payloads: seq<Bytes>) { forall i | 0 <= i < |payloads| :: Fits(payloads[i]) }

  function Frame(payload: Bytes): Bytes { BigEndian(|payload|, LENGTH_BYTES) + payload }

  function Framed(payloads: seq<Bytes>): Bytes {
    if payloads == [] then [] else Frame(payloads[0]) + Framed(payloads[1..])
  }

  /** An independent reader of framed streams. */
  function Unframed(s: Bytes): Option<seq<Bytes>>
    decreases |s|
  {
    if s == [] then Some([])
    else if |s| < LENGTH_BYTES then None
    else
      var end := LENGTH_BYTES + ValueOf(s[..LENGTH_BYTES]);
      if |s| < end then None
      else match Unframed(s[end..])
        case None => None
        case Some(rest) => Some([s[LENGTH_BYTES..end]] + rest)
  }

  /** Reading undoes framing. */
  lemma {:induction false} FramingReadsBack(payloads: seq<Bytes>)
    requires AllFit(payloads)
    ensures Unframed(Framed(payloads)) == Some(payloads)
  {
    if payloads != [] {
      var p, s := payloads[0], Framed(payloads);
      assert Fits(p);
      assert AllFit(payloads[1..]) by {
        assert forall i | 0 <= i < |payloads[1..]| :: payloads[1..][i] == payloads[i + 1];
      }
      FramingReadsBack(payloads[1..]);
      BigEndianKeepsValue(|p|, LENGTH_BYTES);
      assert s[..LENGTH_BYTES] == BigEndian(|p|, LENGTH_BYTES);
      var end := LENGTH_BYTES + |p|;
      assert s[LENGTH_BYTES..end] == p && s[end..] == Framed(payloads[1..]);
      assert payloads == [p] + payloads[1..];
    }
  }

  /** And framing undoes reading: the streams are exactly what the reader accepts. */
  lemma {:induction false} ReadingFramesBack(s: Bytes)
    requires Unframed(s).Some?
    ensures Framed(Unframed(s).value) == s
    decreases |s|
  {
    if s != [] {
      var end := LENGTH_BYTES + ValueOf(s[..LENGTH_BYTES]);
      var p := s[LENGTH_BYTES..end];
      ReadingFramesBack(s[end..]);
      ValueKeepsBytes(s[..LENGTH_BYTES]);
      assert Frame(p) == s[..end];
      assert Unframed(s).value[1..] == Unframed(s[end..]).value;
      assert s == s[..end] + s[end..];
    }
  }

  /** Different payload lists never share a stream. */
  lemma {:induction false} FramingIsInjective(a: seq<Bytes>, b: seq<Bytes>)
    requires AllFit(a) && AllFit(b) && Framed(a) == Framed(b)
    ensures a == b
  {
    FramingReadsBack(a);
    FramingReadsBack(b);
  }

  lemma {:induction false} FramedAppends(payloads: seq<Bytes>, last: Bytes)
    ensures Framed(payloads + [last]) == Framed(payloads) + Frame(last)
  {
    if payloads != [] {
      FramedAppends(payloads[1..], last);
      assert (payloads + [last])[1..] == payloads[1..] + [last];
    } else {
      assert ([] + [last])[1..] == [];
    }
  }

  lemma {:induction false} NextFrame(payloads: seq<Bytes>, i: nat)
    requires i < |payloads|
    ensures Framed(payloads[..i + 1]) == Framed(payloads[..i]) + Frame(payloads[i])
    ensures AllFit(payloads[..i]) && Fits(payloads[i]) ==> AllFit(payloads[..i + 1])
  {
    FramedAppends(payloads[..i], payloads[i]);
    assert payloads[..i + 1] == payloads[..i] + [payloads[i]];
  }

  /** `_hash_canonical_records` over the records' payloads: the digest is fed piece by piece, and a payload too
      long for its length field is an error. */
  method HashStream(preamble: Bytes, payloads: seq<Bytes>, hash: Bytes -> string) returns (digest: Option<string>)
    ensures digest == if AllFit(payloads) then Some(hash(preamble + Framed(payloads))) else None
  {
    var fed := preamble;
    for i := 0 to |payloads|
      invariant AllFit(payloads[..i])
      invariant fed == preamble + Framed(payloads[..i])
    {
      if !Fits(payloads[i]) {
        return None;
      }
      NextFrame(payloads, i);
      fed := fed + BigEndian(|payloads[i]|, LENGTH_BYTES);
      fed := fed + payloads[i];
    }
    assert payloads[..|payloads|] == payloads;
    digest := Some(hash(fed));
  }
}
