/** Raw frame payloads as byte strings, and the byte-window search both
    message classifiers use (`raw.windows(n).any(|w| w == MARKER)`). */
module ByteStrings {

  type Byte = b: int | 0 <= b < 256

  type Bytes = seq<Byte>

  /** The bytes of an ASCII literal such as the source's `b"..."` markers:
      each character is its own code. */
  function Ascii(s: string): (r: Bytes)
    ensures |r| == |s|
  {
    seq(|s|, i requires 0 <= i < |s| => (s[i] as int) % 256)
  }

  /** `pat` is the contiguous slice of `raw` starting at index `i`. */
  ghost predicate OccursAt(raw: Bytes, pat: Bytes, i: int) {
    0 <= i && i + |pat| <= |raw| && raw[i..i + |pat|] == pat
  }

  ghost predicate Contains(raw: Bytes, pat: Bytes) {
    exists i :: OccursAt(raw, pat, i)
  }

  /** An occurrence in `raw[1..]` is an occurrence in `raw` one place later. */
  lemma OccursShifted(raw: Bytes, pat: Bytes)
    requires |raw| >= 1
    ensures Contains(raw, pat) <==> OccursAt(raw, pat, 0) || Contains(raw[1..], pat)
  {
    if Contains(raw, pat) && !OccursAt(raw, pat, 0) {
      var i :| OccursAt(raw, pat, i);
      assert OccursAt(raw[1..], pat, i - 1);
    }
    if Contains(raw[1..], pat) {
      var i :| OccursAt(raw[1..], pat, i);
      assert OccursAt(raw, pat, i + 1);
    }
  }

  /** `raw.windows(|pat|).any(|w| w == pat)`: the windows of `raw` are
      scanned left to right. Rust's `windows` panics on a zero width; the
      source's markers are never empty. */
  function AnyWindow(raw: Bytes, pat: Bytes): (r: bool)
    requires |pat| > 0
    ensures r <==> Contains(raw, pat)
    ensures r ==> |raw| >= |pat|
    decreases |raw|
  {
    if |raw| < |pat| then
      assert !Contains(raw, pat);
      false
    else if raw[..|pat|] == pat then
      assert OccursAt(raw, pat, 0);
      true
    else
      OccursShifted(raw, pat);
      AnyWindow(raw[1..], pat)
  }
}
