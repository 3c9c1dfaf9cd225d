/** Small vocabulary shared by every module of the model. */
module Base {

  /** An unsigned 8-bit value, as stored in `unsigned char` / `uint8_t` buffers. */
  type byte = x: int | 0 <= x < 256

  /** A pointer that may be NULL. */
  datatype Option<+T> = None | Some(value: T)

  /** The bytes of an ASCII string literal. */
  function Ascii(s: string): (r: seq<byte>)
    requires forall i :: 0 <= i < |s| ==> s[i] as int < 128
    ensures |r| == |s|
    ensures forall i :: 0 <= i < |s| ==> r[i] == s[i] as int
  {
    seq(|s|, i requires 0 <= i < |s| => s[i] as int)
  }

  /** The byte sequences of `pieces`, one after the other. */
  function Concat(pieces: seq<seq<byte>>): (r: seq<byte>)
    ensures pieces == [] ==> r == []
  {
    if pieces == [] then [] else pieces[0] + Concat(pieces[1..])
  }

  /** Appending one more piece appends its bytes. */
  lemma {:induction false} ConcatSnoc(pieces: seq<seq<byte>>, last: seq<byte>)
    ensures Concat(pieces + [last]) == Concat(pieces) + last
  {
    if pieces == [] {
      assert [] + [last] == [last];
      assert Concat([last]) == last + Concat([]);
    } else {
      assert (pieces + [last])[1..] == pieces[1..] + [last];
      ConcatSnoc(pieces[1..], last);
    }
  }
}
