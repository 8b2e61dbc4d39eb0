/**
 * The string-to-characters conversion of protr's native helper `s2c`.
 *
 * A character vector arrives from R; only its first element is read. That
 * element is seen through its NUL-terminated C buffer, so the string that is
 * split is the run of bytes before the first 0 byte (or the whole element when
 * it holds no 0). The result is a freshly allocated character vector with one
 * slot per byte of that string, slot `i` holding the one-byte string whose
 * byte is byte `i` of the input.
 */
module Util {

  /** One byte of a C `char` buffer. */
  newtype byte = b: int | 0 <= b < 256

  /** The string payload of one element of an R character vector. */
  type Bytes = seq<byte>

  // ---------------------------------------------------------------------------
  // C strings
  // ---------------------------------------------------------------------------

  /**
   * `strlen` on the buffer `s`: the number of bytes before the first 0 byte.
   * A buffer with no 0 byte is read as if its terminator followed its last
   * byte, which is how the element's buffer is laid out in memory.
   */
  function Strlen(s: Bytes): (n: nat)
    ensures n <= |s|
    ensures forall i :: 0 <= i < n ==> s[i] != 0
    ensures n < |s| ==> s[n] == 0
  {
    if s == [] || s[0] == 0 then 0 else 1 + Strlen(s[1..])
  }

  /** The C string held in the buffer `s`: its bytes up to the first NUL. */
  function CString(s: Bytes): Bytes
  {
    s[..Strlen(s)]
  }

  /** True iff the bytes `t` can be the whole content of a C string. */
  predicate NoNul(t: Bytes)
  {
    forall i :: 0 <= i < |t| ==> t[i] != 0
  }

  /**
   * The C string in a buffer is the longest NUL-free prefix: it holds no 0
   * byte, and appending a terminator and any further bytes to a NUL-free
   * string gives back that string.
   */
  lemma {:induction false} CStringOfTerminated(t: Bytes, rest: Bytes)
    requires NoNul(t)
    ensures CString(t) == t
    ensures CString(t + [0] + rest) == t
  {
    if t != [] {
      assert (t + [0] + rest)[1..] == t[1..] + [0] + rest;
      CStringOfTerminated(t[1..], rest);
    } else {
      assert (t + [0] + rest)[0] == 0;
    }
  }

  /**
   * R's `mkChar` applied to the NUL-terminated buffer `buf`: a new string
   * holding the bytes of `buf` before its first NUL.
   */
  function MkChar(buf: Bytes): Bytes
  {
    CString(buf)
  }

  /**
   * The two-byte buffer `mot` = {b, NUL} that `s2c` hands to `mkChar` yields
   * the one-byte string [b] exactly when b is not NUL; a NUL byte would yield
   * the empty string.
   */
  lemma MkCharOfPair(b: byte)
    ensures MkChar([b, 0]) == if b == 0 then [] else [b]
    ensures |MkChar([b, 0])| == 1 <==> b != 0
  {
    if b != 0 {
      assert [b, 0][1..] == [0];
      assert Strlen([b, 0]) == 1;
    }
  }

  // ---------------------------------------------------------------------------
  // Reference definition: splitting into one-byte strings and joining back
  // ---------------------------------------------------------------------------

  /** The one-byte strings of `t`, in order. */
  function Chars(t: Bytes): seq<Bytes>
  {
    if t == [] then [] else [[t[0]]] + Chars(t[1..])
  }

  /** The strings of `parts` written one after another. */
  function Concat(parts: seq<Bytes>): Bytes
  {
    if parts == [] then [] else parts[0] + Concat(parts[1..])
  }

  /** Chars keeps one slot per byte, and slot k is the one-byte string of byte k. */
  lemma {:induction false} CharsAt(t: Bytes)
    ensures |Chars(t)| == |t|
    ensures forall k :: 0 <= k < |t| ==> Chars(t)[k] == [t[k]]
  {
    if t != [] {
      CharsAt(t[1..]);
      forall k | 1 <= k < |t|
        ensures Chars(t)[k] == [t[k]]
      {
        assert Chars(t)[k] == Chars(t[1..])[k - 1];
      }
    }
  }

  /** Joining the one-byte strings of `t` gives `t` back. */
  lemma {:induction false} ConcatChars(t: Bytes)
    ensures Concat(Chars(t)) == t
  {
    if t != [] {
      ConcatChars(t[1..]);
      assert Chars(t)[1..] == Chars(t[1..]);
    }
  }

  /** Conversely, a list of one-byte strings is the Chars of its join. */
  lemma {:induction false} CharsConcat(parts: seq<Bytes>)
    requires forall k :: 0 <= k < |parts| ==> |parts[k]| == 1
    ensures Chars(Concat(parts)) == parts
  {
    if parts != [] {
      CharsConcat(parts[1..]);
      var t := Concat(parts);
      assert t == parts[0] + Concat(parts[1..]);
      assert parts[0] == [t[0]];
      assert t[1..] == Concat(parts[1..]);
    }
  }

  // ---------------------------------------------------------------------------
  // s2c
  // ---------------------------------------------------------------------------

  /**
   * What `s2c` returns for the character vector `v`: the one-byte strings of
   * the C string held in its first element. R passes a character vector with
   * at least one element; the other elements are never looked at.
   */
  function Split(v: seq<Bytes>): seq<Bytes>
    requires |v| >= 1
  {
    Chars(CString(v[0]))
  }

  /**
   * `s2c`: measure the first element with `strlen`, allocate a character
   * vector of that length (every slot starts as the empty string), then for
   * each index put the byte into the scratch buffer `mot` = {b, NUL} and store
   * `mkChar(mot)` in the slot.
   */
  method S2C(v: seq<Bytes>) returns (chaine: array<Bytes>)
    requires |v| >= 1
    ensures fresh(chaine)
    ensures chaine[..] == Split(v)
  {
    var str := v[0];
    var lseq := Strlen(str);
    chaine := new Bytes[lseq](_ => []);
    var mot := new byte[2](_ => 0);
    for i := 0 to lseq
      invariant mot[1] == 0
      invariant forall k :: 0 <= k < i ==> chaine[k] == [str[k]]
      invariant forall k :: i <= k < lseq ==> chaine[k] == []
    {
      mot[0] := str[i];
      MkCharOfPair(mot[0]);
      assert mot[..] == [str[i], 0];
      chaine[i] := MkChar(mot[..]);
    }
    CharsAt(CString(str));
    assert chaine[..] == Split(v);
  }

  // ---------------------------------------------------------------------------
  // Properties of s2c
  // ---------------------------------------------------------------------------

  /** The result has as many slots as `strlen` of the first element. */
  lemma SplitLength(v: seq<Bytes>)
    requires |v| >= 1
    ensures |Split(v)| == Strlen(v[0])
    ensures |Split(v)| <= |v[0]|
  {
    CharsAt(CString(v[0]));
  }

  /**
   * Slot i is the one-byte string of byte i of the first element, so order
   * and repeated bytes are kept; every slot has length 1 and its byte is not
   * NUL.
   */
  lemma SplitAt(v: seq<Bytes>, i: nat)
    requires |v| >= 1
    requires i < Strlen(v[0])
    ensures i < |Split(v)|
    ensures Split(v)[i] == [v[0][i]]
    ensures |Split(v)[i]| == 1 && Split(v)[i][0] != 0
  {
    CharsAt(CString(v[0]));
  }

  /** Joining the result gives back the first element up to its first NUL. */
  lemma SplitRoundTrip(v: seq<Bytes>)
    requires |v| >= 1
    ensures Concat(Split(v)) == CString(v[0])
    ensures NoNul(v[0]) ==> Concat(Split(v)) == v[0]
  {
    ConcatChars(CString(v[0]));
  }

  /**
   * The result is empty exactly when the first element is empty or starts
   * with NUL (the loop body never runs).
   */
  lemma SplitEmpty(v: seq<Bytes>)
    requires |v| >= 1
    ensures Split(v) == [] <==> (v[0] == [] || v[0][0] == 0)
  {
    SplitLength(v);
  }

  /** Only the first element matters: elements after it change nothing. */
  lemma SplitFirstOnly(v: seq<Bytes>, w: seq<Bytes>)
    requires |v| >= 1 && |w| >= 1
    ensures Split(v) == Split(w) <==> CString(v[0]) == CString(w[0])
  {
    if Split(v) == Split(w) {
      ConcatChars(CString(v[0]));
      ConcatChars(CString(w[0]));
    }
  }
}
