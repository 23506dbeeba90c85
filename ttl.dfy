/** The optional retention time of finished downloads, read from the
    DOWNLOAD_TTL_MIN environment variable (its value is passed in). */
module Ttl {
  import opened Wrappers
  import opened Text

  /** ttlFromEnv: minutes after which a finished file is removed; 0 means
      "keep it". Empty, malformed, out-of-range and negative values all give 0. */
  function TtlFromEnv(env: string): (minutes: int)
    ensures 0 <= minutes <= MaxInt64
    ensures minutes != 0 ==> Atoi(TrimSpace(env)) == Some(minutes)
    ensures Atoi(TrimSpace(env)).None? ==> minutes == 0
    ensures Atoi(TrimSpace(env)).Some? && Atoi(TrimSpace(env)).value < 0 ==> minutes == 0
    ensures Atoi(TrimSpace(env)).Some? && Atoi(TrimSpace(env)).value >= 0 ==> minutes == Atoi(TrimSpace(env)).value
  {
    var s := TrimSpace(env);
    if s == "" then 0
    else
      match Atoi(s)
      case None => 0
      case Some(n) => if n < 0 then 0 else n
  }

  /** A non-negative int64 written in decimal, with any surrounding white
      space, is read back as that number of minutes. */
  lemma TtlFromEnvReadsMinutes(ws1: string, n: nat, ws2: string)
    requires AllSpace(ws1) && AllSpace(ws2)
    requires n <= MaxInt64
    ensures TtlFromEnv(ws1 + DecimalDigits(n) + ws2) == n
  {
    var d := DecimalDigits(n);
    assert !IsSpace(d[0]) && !IsSpace(d[|d| - 1]);
    TrimSpacePadded(ws1, d, ws2);
    AtoiFormatInt(n);
  }

  /** A negative number disables the removal. */
  lemma TtlFromEnvNegative(n: int)
    requires MinInt64 <= n < 0
    ensures TtlFromEnv(FormatInt(n)) == 0
  {
    var s := FormatInt(n);
    assert !IsSpace(s[0]) && !IsSpace(s[|s| - 1]);
    TrimSpacePadded("", s, "");
    assert "" + s + "" == s;
    AtoiFormatInt(n);
  }
}
