/** The text `Date.prototype.toISOString` produces, which the release and
    backup scripts cut their time stamps from. The clock itself is not
    modelled: a stamp is computed from the pieces of such a string. */
module IsoDate {
  /** A decimal digit. */
  predicate IsDigit(c: char) {
    '0' <= c <= '9'
  }

  /** A run of exactly `n` digits. */
  predicate Digits(s: string, n: nat) {
    |s| == n && forall k :: 0 <= k < n ==> IsDigit(s[k])
  }

  /** The shape `toISOString` gives for years 0 to 9999:
      `YYYY-MM-DDTHH:mm:ss.sssZ`. */
  function Iso(y: string, mo: string, d: string, h: string, mi: string, s: string, ms: string): string {
    y + "-" + mo + "-" + d + "T" + h + ":" + mi + ":" + s + "." + ms + "Z"
  }

  /** The pieces of an ISO string are digits, as `toISOString` writes
      them. */
  predicate IsoPieces(y: string, mo: string, d: string, h: string, mi: string, s: string, ms: string) {
    Digits(y, 4) && Digits(mo, 2) && Digits(d, 2) && Digits(h, 2) && Digits(mi, 2)
    && Digits(s, 2) && Digits(ms, 3)
  }
}
