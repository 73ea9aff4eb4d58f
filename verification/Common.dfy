/** Types shared by every module. */
module Common {

  datatype Option<+T> = None | Some(value: T)

  /** A Go byte, kept as a character so that string literals are byte strings. */
  type Byte = c: char | c as int < 256 witness '\0'

  type Bytes = seq<Byte>

  /** A case id; NewID makes them of sixteen hexadecimal digits. */
  type Id = string

  /** `n` copies of `x`. */
  function Repeat<T>(x: T, n: nat): (r: seq<T>)
    ensures |r| == n && forall i :: 0 <= i < n ==> r[i] == x
  {
    seq(n, i => x)
  }

  /** A column-for-column row of the `cases` table, its primary key aside. */
  datatype Row = Row(
    codeLookup: Bytes,
    codeHash: Bytes,
    codeSalt: Bytes,
    createdAt: int,
    expiresAt: int,
    readFlag: bool,
    hasReply: bool)

  /** A second in nanoseconds, as Go's time.Duration counts. */
  const SECOND := 1_000_000_000

  /** The last whole hour that is not after `now`; both in seconds. */
  predicate IsHourOf(hour: int, now: int) {
    hour % 3600 == 0 && hour <= now < hour + 3600
  }

  /** Where int64 and uint64 end. */
  const TWO_63 := 0x8000_0000_0000_0000
  const TWO_64 := 0x1_0000_0000_0000_0000

  /** How many ids CreateCase draws before it gives up. */
  const MAX_RETRIES := 5

  /** The two file names a case directory ever holds. */
  const BLOB_NAME := "case-data.tar.age"
  const REPLY_NAME := "reply.bin"
}
