/**
 * The bcrypt library, reduced to the two operations the handlers call and
 * the facts about them that the handlers' behaviour depends on.  The salt
 * and the cost factor are folded into `hash`.
 */
module Hashing {

  /** `bcrypt.hash(p, 10)` and `bcrypt.compare(p, h)` as function values. */
  datatype Hasher = Hasher(hash: string -> string, compare: (string, string) -> bool)

  /**
   * What bcrypt guarantees and the reset-then-login round trip needs: a
   * password matches its own hash, and a hash is never the empty string
   * (bcrypt hashes are 60 characters long).
   */
  ghost predicate Sound(h: Hasher)
  {
    (forall p :: h.compare(p, h.hash(p))) &&
    (forall p :: h.hash(p) != "")
  }

  /**
   * The number of bytes of the UTF-8 encoding of `s`; the ensures is a
   * sanity bound (one to four bytes per scalar value).
   */
  function Utf8Length(s: string): (r: nat)
    ensures |s| <= r <= 4 * |s|
  {
    if s == [] then 0
    else
      var c := s[0] as int;
      (if c < 0x80 then 1 else if c < 0x800 then 2 else if c < 0x1_0000 then 3 else 4) + Utf8Length(s[1..])
  }

  /** An ASCII string takes one byte per character. */
  lemma {:induction false} Utf8LengthAscii(s: string)
    requires forall k | 0 <= k < |s| :: s[k] < '\U{80}'
    ensures Utf8Length(s) == |s|
  {
    if s != [] {
      Utf8LengthAscii(s[1..]);
    }
  }

  /**
   * The passwords the model trusts bcrypt to tell apart: bcrypt uses at most
   * 72 bytes of the key, and, conservatively, keys containing U+0000 are
   * excluded too, since some bindings read the key as a C string and stop
   * there.
   */
  predicate WholeKey(p: string)
  {
    '\0' !in p && Utf8Length(p) <= 72
  }

  /**
   * Collision resistance, idealised and limited to whole keys: such a
   * hash matches only the whole key it was made from.
   */
  ghost predicate Binding(h: Hasher)
  {
    forall p, q :: WholeKey(p) && WholeKey(q) && h.compare(p, h.hash(q)) ==> p == q
  }

  /** Under `Binding`, a whole key does not match the hash of a different whole key. */
  lemma OtherKeyFails(h: Hasher, p: string, q: string)
    requires Binding(h) && WholeKey(p) && WholeKey(q) && p != q
    ensures !h.compare(p, h.hash(q))
  {
  }
}
