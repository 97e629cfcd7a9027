/**
 Decoding of bytes into characters: UTF-8 (section 4 of RFC 3629) with `surrogateescape`. Decoding is
 greedy: at each place a well-formed sequence is one character, any other byte is one escaped character.
 A character is represented by the bytes it was decoded from, so no byte is ever lost.
 */
module Utf8 {
  import opened Rows

  type Char = Bytes

  predicate Tail(b: Byte) {
    0x80 <= b < 0xC0
  }

  /** Length of the well-formed sequence at the start of `s`, 0 when there is none. */
  function WellFormedLength(s: Bytes): (n: nat)
    ensures n <= |s| && n <= 4
    ensures forall i :: 1 <= i < n ==> Tail(s[i])
    ensures n > 0 ==> !Tail(s[0])
  {
    if |s| == 0 then 0
    else if s[0] < 0x80 then 1
    else if 0xC2 <= s[0] <= 0xDF then
      if |s| >= 2 && Tail(s[1]) then 2 else 0
    else if 0xE0 <= s[0] <= 0xEF then
      if |s| >= 3 && Tail(s[1]) && Tail(s[2]) && (s[0] == 0xE0 ==> 0xA0 <= s[1]) && (s[0] == 0xED ==> s[1] <= 0x9F) then 3 else 0
    else if 0xF0 <= s[0] <= 0xF4 then
      if |s| >= 4 && Tail(s[1]) && Tail(s[2]) && Tail(s[3])
         && (s[0] == 0xF0 ==> 0x90 <= s[1]) && (s[0] == 0xF4 ==> s[1] <= 0x8F) then 4 else 0
    else 0
  }

  /** Number of bytes of the first character of `s`. */
  function Step(s: Bytes): (n: nat)
    requires s != []
    ensures 1 <= n <= |s| && n <= 4
    ensures forall i :: 1 <= i < n ==> Tail(s[i])
  {
    if WellFormedLength(s) == 0 then 1 else WellFormedLength(s)
  }

  function Decode(s: Bytes): seq<Char> {
    if s == [] then [] else [s[..Step(s)]] + Decode(s[Step(s)..])
  }

  /** The bytes of decoded text. */
  function Encode(text: seq<Char>): Bytes {
    if text == [] then [] else text[0] + Encode(text[1..])
  }

  function EncodedLength(text: seq<Char>): nat {
    |Encode(text)|
  }

  /** A character of decoded text: one well-formed sequence or one escaped byte. */
  predicate IsChar(c: Char) {
    c != [] && Step(c) == |c|
  }

  // ----- boundaries ---------------------------------------------------------------------------

  /** `p` lies between two characters of `s`. */
  predicate Boundary(s: Bytes, p: nat) {
    if p == 0 then true else p <= |s| && Step(s) <= p && Boundary(s[Step(s)..], p - Step(s))
  }

  /** What follows does not change a first character that is complete. */
  lemma {:induction false} StepPrefix(s: Bytes, p: nat)
    requires s != [] && Step(s) <= p <= |s|
    ensures s[..p] != [] && Step(s[..p]) == Step(s)
  {
  }

  /** Text splits exactly at boundaries: both parts decode to their share of the characters. */
  lemma {:induction false} DecodeAt(s: Bytes, p: nat)
    requires Boundary(s, p)
    ensures p <= |s| && Decode(s) == Decode(s[..p]) + Decode(s[p..])
  {
    hide *;
    DecodeNone();
    if p == 0 {
      assert s[p..] == s && s[..p] == [];
    } else {
      BoundaryCons(s, p);
      var n := Step(s);
      StepPrefix(s, p);
      DecodeAt(s[n..], p - n);
      assert s[..p][..n] == s[..n] && s[..p][n..] == s[n..][..p - n] && s[n..][p - n..] == s[p..];
      DecodeCons(s);
      DecodeCons(s[..p]);
    }
  }

  lemma {:induction false} DecodeNone()
    ensures Decode([]) == [] && Encode([]) == []
  {
  }

  lemma {:induction false} DecodeCons(s: Bytes)
    requires s != []
    ensures 1 <= Step(s) <= |s| && Decode(s) == [s[..Step(s)]] + Decode(s[Step(s)..])
  {
    hide Step;
  }

  lemma {:induction false} BoundaryCons(s: Bytes, p: nat)
    requires p > 0 && Boundary(s, p)
    ensures s != [] && 1 <= Step(s) <= p <= |s| && Boundary(s[Step(s)..], p - Step(s))
  {
    hide Step;
  }

  /** Decoding a concatenation when the seam is a boundary. */
  lemma {:induction false} DecodeSeam(a: Bytes, b: Bytes)
    requires Boundary(a + b, |a|)
    ensures Decode(a + b) == Decode(a) + Decode(b)
  {
    hide Step;
    DecodeAt(a + b, |a|);
    assert (a + b)[..|a|] == a && (a + b)[|a|..] == b;
  }

  lemma {:induction false} EndIsBoundary(s: Bytes)
    ensures Boundary(s, |s|)
  {
    hide Step;
    if s != [] {
      EndIsBoundary(s[Step(s)..]);
    }
  }

  /** A byte that is no continuation byte starts a character. */
  lemma {:induction false} LeadIsBoundary(s: Bytes, p: nat)
    requires p < |s| && !Tail(s[p])
    ensures Boundary(s, p)
  {
    hide Step;
    if p > 0 {
      var n := Step(s);
      assert n <= p;
      LeadIsBoundary(s[n..], p - n);
    }
  }

  /** Boundaries compose. */
  lemma {:induction false} BoundaryShift(s: Bytes, p: nat, q: nat)
    requires Boundary(s, p) && p <= q <= |s|
    ensures Boundary(s, q) <==> Boundary(s[p..], q - p)
  {
    hide Step;
    if p > 0 {
      var n := Step(s);
      BoundaryShift(s[n..], p - n, q - n);
      assert s[n..][p - n..] == s[p..];
    } else {
      assert s[p..] == s;
    }
  }

  /** A boundary of the whole that lies in a prefix is one of the prefix. */
  lemma {:induction false} BoundaryPrefix(s: Bytes, p: nat, q: nat)
    requires Boundary(s, p) && p <= q <= |s|
    ensures Boundary(s[..q], p)
  {
    hide Step;
    if p > 0 {
      var n := Step(s);
      StepPrefix(s, q);
      BoundaryPrefix(s[n..], p - n, q - n);
      assert s[..q][n..] == s[n..][..q - n];
    }
  }

  // ----- round trip ------------------------------------------------------------------------------

  /** Decoding loses nothing and makes proper characters only. */
  lemma {:induction false} DecodeEncode(s: Bytes)
    ensures Encode(Decode(s)) == s
    ensures forall i :: 0 <= i < |Decode(s)| ==> IsChar(Decode(s)[i])
  {
    hide *;
    if s == [] {
      DecodeNone();
    } else {
      DecodeCons(s);
      var n := Step(s);
      DecodeEncode(s[n..]);
      EncodeCons(Decode(s));
      assert s == s[..n] + s[n..];
      FirstIsChar(s);
    }
  }

  lemma {:induction false} FirstIsChar(s: Bytes)
    requires s != []
    ensures IsChar(s[..Step(s)])
  {
    StepPrefix(s, Step(s));
  }

  lemma {:induction false} EncodeCons(a: seq<Char>)
    requires a != []
    ensures Encode(a) == a[0] + Encode(a[1..])
  {
  }

  lemma {:induction false} EncodeConcat(a: seq<Char>, b: seq<Char>)
    ensures Encode(a + b) == Encode(a) + Encode(b)
  {
    hide *;
    if a == [] {
      assert a + b == b;
      DecodeNone();
    } else {
      EncodeConcat(a[1..], b);
      assert (a + b)[0] == a[0] && (a + b)[1..] == a[1..] + b;
      EncodeCons(a);
      EncodeCons(a + b);
    }
  }

  /** The byte place of character `k`. */
  function ByteOf(s: Bytes, k: nat): nat
    requires k <= |Decode(s)|
  {
    EncodedLength(Decode(s)[..k])
  }

  /** The places of characters are the boundaries, and counting characters up to them inverts. */
  lemma {:induction false} ByteOfFacts(s: Bytes, k: nat)
    requires k <= |Decode(s)|
    ensures ByteOf(s, k) <= |s| && Boundary(s, ByteOf(s, k))
    ensures Decode(s[..ByteOf(s, k)]) == Decode(s)[..k]
    ensures k <= ByteOf(s, k) <= 4 * k
  {
    hide Step;
    if k == 0 {
      assert Decode(s)[..0] == [];
    } else {
      var n := Step(s);
      ByteOfFacts(s[n..], k - 1);
      var p := ByteOf(s[n..], k - 1);
      assert Decode(s)[..k] == [s[..n]] + Decode(s[n..])[..k - 1];
      EncodeConcat([s[..n]], Decode(s[n..])[..k - 1]);
      EncodeOne(s[..n]);
      assert ByteOf(s, k) == n + p;
      StepPrefix(s, n + p);
      assert s[..n + p][..n] == s[..n] && s[..n + p][n..] == s[n..][..p];
    }
  }

  lemma {:induction false} EncodeOne(c: Char)
    ensures Encode([c]) == c
  {
    assert [c][1..] == [];
  }

  /** Counting characters up to a boundary gives the character whose place it is. */
  lemma {:induction false} BoundaryIsByteOf(s: Bytes, p: nat)
    requires Boundary(s, p)
    ensures p <= |s| && |Decode(s[..p])| <= |Decode(s)| && ByteOf(s, |Decode(s[..p])|) == p
  {
    DecodeAt(s, p);
    DecodeEncode(s[..p]);
    assert Decode(s)[..|Decode(s[..p])|] == Decode(s[..p]);
  }

  // ----- cutting a block -------------------------------------------------------------------------

  /** `safe_cut`: the length of `data` without a trailing incomplete sequence. */
  method SafeCut(data: Bytes) returns (cut: nat)
    ensures cut <= |data| && |data| - cut <= 3
    ensures forall rest: Bytes :: Boundary(data + rest, cut)
  {
    var size := |data|;
    var back := 1;
    while back <= (if size < 4 then size else 4)
      invariant 1 <= back <= 5 && back <= size + 1
      invariant forall j :: size - back < j < size ==> Tail(data[j])
    {
      var byte := data[size - back];
      if !Tail(byte) {
        if byte >= 0xC0 {
          var need := if byte < 0xE0 then 2 else if byte < 0xF0 then 3 else 4;
          if need > back {
            cut := size - back;
            forall rest: Bytes
              ensures Boundary(data + rest, cut)
            {
              LeadIsBoundary(data + rest, cut);
            }
            return;
          }
        }
        forall rest: Bytes
          ensures Boundary(data + rest, size)
        {
          LastSequenceEnds(data, rest, size - back);
        }
        return size;
      }
      back := back + 1;
    }
    forall rest: Bytes
      ensures Boundary(data + rest, size)
    {
      TailsEnd(data, rest, 0);
    }
    return size;
  }

  /** Bytes a sequence started by `byte` can take at most. */
  function Need(byte: Byte): nat {
    if byte < 0xC0 then 1 else if byte < 0xE0 then 2 else if byte < 0xF0 then 3 else 4
  }

  lemma {:induction false} StepNeed(s: Bytes)
    requires s != []
    ensures Step(s) <= Need(s[0])
    ensures Tail(s[0]) ==> Step(s) == 1
  {
  }

  /** The last lead byte of `data` cannot reach beyond the end of `data`. */
  lemma {:induction false} LastSequenceEnds(data: Bytes, rest: Bytes, p: nat)
    requires p < |data| && !Tail(data[p]) && Need(data[p]) <= |data| - p
    requires forall k :: p < k < |data| ==> Tail(data[k])
    ensures Boundary(data + rest, |data|)
  {
    var s := data + rest;
    LeadIsBoundary(s, p);
    BoundaryShift(s, p, |data|);
    var t := s[p..];
    StepNeed(t);
    var n := Step(t);
    assert t == (data[p..]) + rest;
    var q := data[p + n..];
    assert t[n..] == q + rest;
    OnlyTails(q, rest);
  }

  /** Continuation bytes on their own are single characters. */
  lemma {:induction false} OnlyTails(q: Bytes, rest: Bytes)
    requires forall k :: 0 <= k < |q| ==> Tail(q[k])
    ensures Boundary(q + rest, |q|)
  {
    if q != [] {
      StepNeed(q + rest);
      assert (q + rest)[1..] == q[1..] + rest;
      OnlyTails(q[1..], rest);
    }
  }

  /** Four or more trailing continuation bytes: no sequence is that long, so the end is a boundary. */
  lemma {:induction false} TailsEnd(data: Bytes, rest: Bytes, p: nat)
    requires p <= |data|
    requires |data| < 4 || |data| - p >= 4 || p == |data|
    requires forall j :: 0 <= j < |data| && |data| - 4 <= j ==> Tail(data[j])
    ensures Boundary(data + rest, |data|)
    decreases |data|
  {
    if |data| < 4 {
      OnlyTails(data, rest);
    } else {
      var s := data + rest;
      var n := Step(s);
      if |data| - n >= 4 {
        assert s[n..] == data[n..] + rest;
        TailsEnd(data[n..], rest, 0);
      } else {
        assert n <= |data|;
        assert s[n..] == data[n..] + rest;
        OnlyTails(data[n..], rest);
      }
    }
  }
}
