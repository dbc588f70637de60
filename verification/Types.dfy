/** Values shared by every part of the quote service model. */
module Types {

  /** A directory user identifier (the caller's `preferred_username`, a speaker, a submitter). */
  type Uid = string

  datatype Option<+T> = None | Some(value: T)

  /** The two values of the `vote` column. */
  datatype VoteKind = Upvote | Downvote

  /** Largest value of a PostgreSQL `int4` (quote ids are `serial`). */
  const I32_MAX: int := 0x7fff_ffff

  /** Largest value of an `i64`; a listing limit of -1 is replaced by it. */
  const I64_MAX: int := 0x7fff_ffff_ffff_ffff

  /** The most shards a new quote may have. */
  const MAX_SHARDS: nat := 6

  /** Number of bytes the UTF-8 encoding of `c` takes. */
  function Utf8Width(c: char): (w: nat)
    ensures 1 <= w <= 4
    ensures w == 1 <==> c as int < 0x80
  {
    if c as int < 0x80 then 1
    else if c as int < 0x800 then 2
    else if c as int < 0x1_0000 then 3
    else 4
  }

  /** Length in bytes of the UTF-8 encoding of `s`: what Rust's `String::len` returns. */
  function Utf8Len(s: string): (n: nat)
    ensures |s| <= n <= 4 * |s|
  {
    if s == [] then 0 else Utf8Len(s[..|s| - 1]) + Utf8Width(s[|s| - 1])
  }

  /** A string of ASCII characters is as many bytes long as it has characters. */
  lemma {:induction false} AsciiUtf8Len(s: string)
    requires forall i :: 0 <= i < |s| ==> s[i] as int < 0x80
    ensures Utf8Len(s) == |s|
  {
    if s != [] {
      AsciiUtf8Len(s[..|s| - 1]);
    }
  }
}
