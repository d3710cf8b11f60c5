/**
 * The pieces of the TLM-2.0 generic payload and base protocol (clauses 14
 * and 15 of IEEE 1666-2011) that the transaction engine manipulates.
 * Simulation time is a natural number of ticks; payloads are values.
 */
module Tlm {
  import Bits

  type byte = x: int | 0 <= x < 256

  datatype Command = Read | Write | Ignore

  datatype ResponseStatus =
    | Ok
    | Incomplete
    | GenericError
    | AddressError
    | CommandError
    | BurstError
    | ByteEnableError

  datatype Phase = BeginReq | EndReq | BeginResp | EndResp

  datatype SyncEnum = Accepted | Updated | Completed

  datatype Option<T> = None | Some(value: T)

  /** Byte-enable values of an enabled and a disabled lane. */
  const BYTE_ENABLED: byte := 0xFF
  const BYTE_DISABLED: byte := 0x00

  /**
   * A generic payload. `data` and `byteEnable` are the attached buffers
   * (empty for a null pointer); `dataLength` and `beLength` say how many of
   * their bytes the transaction uses.
   */
  datatype Payload = Payload(
    command: Command,
    address: nat,
    data: seq<byte>,
    dataLength: nat,
    byteEnable: seq<byte>,
    beLength: nat,
    streamingWidth: nat,
    dmiAllowed: bool,
    status: ResponseStatus)
  {
    predicate IsRead() { command == Read }
    predicate IsWrite() { command == Write }

    /** The byte-enable buffer covers its declared length. */
    predicate WellFormed()
    {
      dataLength <= |data| && beLength <= |byteEnable|
    }
  }

  /** 256^n, the number of values an n-byte word can hold. */
  function ByteRange(n: nat): (r: nat)
    ensures r >= 1
  {
    if n == 0 then 1 else 256 * ByteRange(n - 1)
  }

  /** The little-endian value of a byte sequence (a host word read from memory). */
  function WordOf(b: seq<byte>): (v: nat)
    ensures v < ByteRange(|b|)
  {
    if |b| == 0 then 0 else b[0] + 256 * WordOf(b[1..])
  }

  /** The n little-endian bytes of v, truncated to n bytes as a C cast would. */
  function BytesOf(v: nat, n: nat): (b: seq<byte>)
    ensures |b| == n
  {
    if n == 0 then [] else [v % 256] + BytesOf(v / 256, n - 1)
  }

  /** Reading back the bytes of a word gives the word, truncated to n bytes. */
  lemma {:induction false} WordOfBytesOf(v: nat, n: nat)
    requires v < ByteRange(n)
    ensures WordOf(BytesOf(v, n)) == v
  {
    if n > 0 {
      assert v / 256 < ByteRange(n - 1);
      WordOfBytesOf(v / 256, n - 1);
      assert BytesOf(v, n)[1..] == BytesOf(v / 256, n - 1);
    }
  }

  /** Writing the value of a byte sequence gives the bytes back. */
  lemma {:induction false} BytesOfWordOf(b: seq<byte>)
    ensures BytesOf(WordOf(b), |b|) == b
  {
    if |b| > 0 {
      BytesOfWordOf(b[1..]);
      assert WordOf(b) % 256 == b[0];
      assert WordOf(b) / 256 == WordOf(b[1..]);
    }
  }

  /** memcpy of words into a byte buffer: each word becomes w little-endian bytes. */
  function WordsToBytes(ws: seq<nat>, w: nat): (b: seq<byte>)
    ensures |b| == |ws| * w
  {
    if |ws| == 0 then [] else BytesOf(ws[0], w) + WordsToBytes(ws[1..], w)
  }

  /** memcpy of a byte buffer into words: every w bytes form one word. */
  function BytesToWords(b: seq<byte>, w: nat): (ws: seq<nat>)
    requires w > 0
    ensures |ws| == |b| / w
    decreases |b|
  {
    if |b| < w then
      Bits.DivModUnique(|b|, w, 0, |b|);
      []
    else
      var rest := BytesToWords(b[w..], w);
      var n := |b| - w;
      assert n == n / w * w + n % w;
      Bits.DivModUnique(|b|, w, n / w + 1, n % w);
      [WordOf(b[..w])] + rest
  }

  /** Words that fit in w bytes survive the trip through a byte buffer. */
  lemma {:induction false} BytesToWordsRoundTrip(ws: seq<nat>, w: nat)
    requires w > 0
    requires forall i :: 0 <= i < |ws| ==> ws[i] < ByteRange(w)
    ensures BytesToWords(WordsToBytes(ws, w), w) == ws
  {
    if |ws| > 0 {
      var b := WordsToBytes(ws, w);
      assert b[..w] == BytesOf(ws[0], w);
      assert b[w..] == WordsToBytes(ws[1..], w);
      WordOfBytesOf(ws[0], w);
      BytesToWordsRoundTrip(ws[1..], w);
    }
  }
}
