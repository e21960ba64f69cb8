/** Fixed-width, zero-padded string fields (fang/src/util.rs). A Rust `String`
    is modelled as its bytes; the model keeps to ASCII text. */
module Util {
  import opened Bytes

  predicate NoNul(s: seq<u8>)
  {
    forall i :: 0 <= i < |s| ==> s[i] != 0
  }

  /** Position of the first zero byte of `buf`, or `|buf|` when it has none. */
  function NulIndex(buf: seq<u8>): (n: nat)
    ensures n <= |buf|
    ensures NoNul(buf[..n])
    ensures n < |buf| ==> buf[n] == 0
  {
    if buf == [] || buf[0] == 0 then 0
    else
      var n' := NulIndex(buf[1..]);
      assert buf[..1 + n'] == [buf[0]] + buf[1..][..n'];
      1 + n'
  }

  /** The first zero byte is the only one that ends a NUL-free prefix. */
  lemma NulIndexAt(buf: seq<u8>, k: nat)
    requires k <= |buf| && NoNul(buf[..k])
    requires k < |buf| ==> buf[k] == 0
    ensures NulIndex(buf) == k
  {
    FirstNulUnique(buf, NulIndex(buf), k);
  }

  /** At most one position ends a NUL-free prefix with a zero byte or the end. */
  lemma FirstNulUnique(buf: seq<u8>, n: nat, k: nat)
    requires n <= |buf| && NoNul(buf[..n]) && (n < |buf| ==> buf[n] == 0)
    requires k <= |buf| && NoNul(buf[..k]) && (k < |buf| ==> buf[k] == 0)
    ensures n == k
  {
    if n < k {
      assert false;
    } else if k < n {
      assert false;
    }
  }

  /** `vec_to_null_terminated_str`: the text before the first zero byte, or the
      whole buffer when it holds none. */
  function VecToNullTerminatedStr(buf: seq<u8>): (s: seq<u8>)
    ensures |s| <= |buf| && s == buf[..|s|]
    ensures NoNul(s)
    ensures |s| < |buf| ==> buf[|s|] == 0
  {
    buf[..NulIndex(buf)]
  }

  /** `string_to_vec(s, length)`: walks `length` positions, taking the next byte
      of `s` while there is one and zero after that. */
  function StringToVec(s: seq<u8>, length: nat): (r: seq<u8>)
    ensures |r| == length
    ensures forall i {:trigger r[i]} :: 0 <= i < length ==> r[i] == if i < |s| then s[i] else 0
  {
    if length == 0 then []
    else
      var next: u8 := if s == [] then 0 else s[0];
      [next] + StringToVec(if s == [] then [] else s[1..], length - 1)
  }

  /** Encoding NUL-free text into a wider field and decoding it gives the text
      back; a text at least as long as the field comes back cut to the field. */
  lemma {:induction false} StringRoundTrip(s: seq<u8>, length: nat)
    requires NoNul(s)
    ensures VecToNullTerminatedStr(StringToVec(s, length)) == if |s| < length then s else s[..length]
  {
    var buf := StringToVec(s, length);
    if |s| < length {
      assert buf[..|s|] == s;
      NulIndexAt(buf, |s|);
    } else {
      assert buf == s[..length];
      NulIndexAt(buf, length);
    }
  }

  /** Nothing but zeros follows the first zero byte of the field. */
  predicate ZeroPadded(buf: seq<u8>)
  {
    forall i :: NulIndex(buf) <= i < |buf| ==> buf[i] == 0
  }

  /** Decoding a field and encoding the text back into the same width rebuilds
      the field exactly when nothing but zeros follows its first zero byte. */
  lemma {:induction false} FieldRewrite(buf: seq<u8>)
    ensures StringToVec(VecToNullTerminatedStr(buf), |buf|) == buf <==> ZeroPadded(buf)
  {
    var r := StringToVec(VecToNullTerminatedStr(buf), |buf|);
    var n := NulIndex(buf);
    if forall i :: n <= i < |buf| ==> buf[i] == 0 {
      assert forall i :: 0 <= i < |buf| ==> r[i] == buf[i];
    }
    if r == buf {
      forall i | n <= i < |buf| ensures buf[i] == 0 {
        assert r[i] == 0;
      }
    }
  }
}
