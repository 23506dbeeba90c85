/** The file name a download is stored under: the video title with the
    characters Windows forbids collapsed, control characters dropped, cut to
    80 runes, with a time-stamped fallback, and the ".mp4" extension. A Dafny
    char stands for one Go rune. */
module Sanitize {
  import opened Text

  /** The class [<>:"/\\|?*] of the replacement pattern. */
  predicate IsReserved(c: char) {
    c == '<' || c == '>' || c == ':' || c == '"' || c == '/' || c == '\\' || c == '|' || c == '?' || c == '*'
  }

  /** The runes strings.Map is told to drop. */
  predicate IsControl(c: char) {
    c as int < 32 || c as int == 127
  }

  predicate NoReserved(s: string) {
    forall k :: 0 <= k < |s| ==> !IsReserved(s[k])
  }

  predicate AllReserved(s: string) {
    forall k :: 0 <= k < |s| ==> IsReserved(s[k])
  }

  predicate NoControl(s: string) {
    forall k :: 0 <= k < |s| ==> !IsControl(s[k])
  }

  const MaxLength: nat := 80
  const Extension: string := ".mp4"
  const FallbackPrefix: string := "rutube_"

  /** Drops the run of reserved characters at the start of s. */
  function DropRun(s: string): (r: string)
    ensures |r| <= |s|
    ensures s != [] && IsReserved(s[0]) ==> |r| < |s|
    ensures r == [] || !IsReserved(r[0])
  {
    if s != [] && IsReserved(s[0]) then DropRun(s[1..]) else s
  }

  /** The regexp replacement: every maximal run of reserved characters
      becomes one '_'. */
  function CollapseReserved(s: string): (r: string)
    ensures NoReserved(r)
    ensures |r| <= |s|
    decreases |s|
  {
    if s == [] then []
    else if IsReserved(s[0]) then "_" + CollapseReserved(DropRun(s))
    else [s[0]] + CollapseReserved(s[1..])
  }

  /** strings.Map with the control-dropping mapping. */
  function StripControl(s: string): (r: string)
    ensures NoControl(r)
    ensures |r| <= |s|
    ensures NoReserved(s) ==> NoReserved(r)
  {
    if s == [] then []
    else if IsControl(s[0]) then StripControl(s[1..])
    else [s[0]] + StripControl(s[1..])
  }

  /** The title after trimming, collapsing and stripping, before the cut. */
  function Cleaned(title: string): (c: string)
    ensures NoReserved(c) && NoControl(c)
  {
    StripControl(CollapseReserved(TrimSpace(title)))
  }

  /** fmt.Sprintf("rutube_%d", unix). */
  function Fallback(unix: int): string {
    FallbackPrefix + FormatInt(unix)
  }

  /** sanitize, with time.Now().Unix() passed in: never empty, at most 80
      runes, free of reserved and control characters; the first 80 runes of
      the cleaned title, or the fallback when nothing is left of it. */
  function Sanitize(title: string, unix: int): (r: string)
    requires MinInt64 <= unix <= MaxInt64
    ensures 1 <= |r| <= MaxLength
    ensures NoReserved(r) && NoControl(r)
    ensures Cleaned(title) == [] ==> r == Fallback(unix)
    ensures Cleaned(title) != [] ==>
      HasPrefix(Cleaned(title), r) && |r| == (if |Cleaned(title)| > MaxLength then MaxLength else |Cleaned(title)|)
  {
    var c := Cleaned(title);
    var cut := if |c| > MaxLength then c[..MaxLength] else c;
    if cut == [] then
      FallbackShape(unix);
      Fallback(unix)
    else cut
  }

  /** The stored name: the sanitised title followed by ".mp4". */
  function FileName(title: string, unix: int): (f: string)
    requires MinInt64 <= unix <= MaxInt64
    ensures |Extension| < |f| <= MaxLength + |Extension|
    ensures f[|f| - |Extension|..] == Extension
    ensures NoReserved(f) && NoControl(f)
  {
    var stem := Sanitize(title, unix);
    WithExtension(stem);
    stem + Extension
  }

  // ---- lemmas ----------------------------------------------------------

  function Pow10(k: nat): nat {
    if k == 0 then 1 else 10 * Pow10(k - 1)
  }

  lemma {:induction false} Pow10Add(i: nat, j: nat)
    ensures Pow10(i + j) == Pow10(i) * Pow10(j)
    decreases i
  {
    if i > 0 {
      Pow10Add(i - 1, j);
      assert Pow10(i + j) == 10 * Pow10((i - 1) + j);
      assert 10 * (Pow10(i - 1) * Pow10(j)) == (10 * Pow10(i - 1)) * Pow10(j);
    }
  }

  /** A number below 10^k has at most k digits. */
  lemma {:induction false} DecimalDigitsLength(n: nat, k: nat)
    requires k >= 1 && n < Pow10(k)
    ensures |DecimalDigits(n)| <= k
    decreases k
  {
    if n >= 10 {
      assert k >= 2 by {
        assert Pow10(1) == 10;
        assert k != 1;
      }
      assert n / 10 < Pow10(k - 1);
      DecimalDigitsLength(n / 10, k - 1);
    }
  }

  /** Two strings free of reserved and control characters stay free of them
      when joined. */
  lemma CleanAppend(s: string, t: string)
    requires NoReserved(s) && NoControl(s) && NoReserved(t) && NoControl(t)
    ensures NoReserved(s + t) && NoControl(s + t)
  {
    forall k | 0 <= k < |s + t|
      ensures !IsReserved((s + t)[k]) && !IsControl((s + t)[k])
    {
      if k >= |s| {
        assert (s + t)[k] == t[k - |s|];
      }
    }
  }

  /** The fallback is short and made of digits, '-', '_' and letters. */
  lemma FallbackShape(unix: int)
    requires MinInt64 <= unix <= MaxInt64
    ensures 1 <= |Fallback(unix)| <= MaxLength
    ensures NoReserved(Fallback(unix)) && NoControl(Fallback(unix))
  {
    FormatIntShape(unix);
    assert NoReserved(FallbackPrefix) && NoControl(FallbackPrefix);
    CleanAppend(FallbackPrefix, FormatInt(unix));
  }

  /** An int64 printed with %d has at most 20 characters, all digits but a
      leading '-'. */
  lemma FormatIntShape(n: int)
    requires MinInt64 <= n <= MaxInt64
    ensures |FormatInt(n)| <= 20
    ensures NoReserved(FormatInt(n)) && NoControl(FormatInt(n))
  {
    var m: nat := if n < 0 then -n else n;
    Pow10Of19();
    DecimalDigitsLength(m, 19);
    var d := DecimalDigits(m);
    DigitsClean(d);
    if n < 0 {
      assert FormatInt(n) == "-" + d;
      MinusClean();
      CleanAppend("-", d);
    }
  }

  lemma DigitsClean(d: string)
    requires AllDigits(d)
    ensures NoReserved(d) && NoControl(d)
  {
    forall k | 0 <= k < |d| ensures !IsReserved(d[k]) && !IsControl(d[k]) {
      assert IsDigit(d[k]);
    }
  }

  lemma MinusClean()
    ensures NoReserved("-") && NoControl("-")
  {
    assert "-"[0] == '-';
  }

  lemma Pow10Of19()
    ensures Pow10(19) == 10_000_000_000_000_000_000
  {
    assert Pow10(3) == 1000;
    Pow10Add(2, 2);
    Pow10Add(4, 4);
    Pow10Add(8, 8);
    Pow10Add(16, 3);
  }

  /** A clean stem of at most 80 runes gives a clean ".mp4" name. */
  lemma WithExtension(stem: string)
    requires 1 <= |stem| <= MaxLength && NoReserved(stem) && NoControl(stem)
    ensures |Extension| < |stem + Extension| <= MaxLength + |Extension|
    ensures (stem + Extension)[|stem + Extension| - |Extension|..] == Extension
    ensures NoReserved(stem + Extension) && NoControl(stem + Extension)
  {
    assert NoReserved(Extension) && NoControl(Extension);
    CleanAppend(stem, Extension);
  }

  /** A title free of reserved characters passes the collapse unchanged. */
  lemma {:induction false} CollapseIdentity(s: string)
    requires NoReserved(s)
    ensures CollapseReserved(s) == s
    decreases |s|
  {
    if s != [] {
      CollapseIdentity(s[1..]);
    }
  }

  /** Dropping the run at the start of a + t, when a holds a non-reserved
      character, leaves t untouched. */
  lemma {:induction false} DropRunAppend(a: string, t: string)
    requires a != [] && !IsReserved(a[|a| - 1])
    ensures DropRun(a + t) == DropRun(a) + t
    decreases |a|
  {
    if IsReserved(a[0]) {
      assert (a + t)[1..] == a[1..] + t;
      DropRunAppend(a[1..], t);
    }
  }

  /** A run of reserved characters followed by a part that does not start
      with one is dropped whole. */
  lemma {:induction false} DropRunOfRun(run: string, b: string)
    requires AllReserved(run)
    requires b == [] || !IsReserved(b[0])
    ensures DropRun(run + b) == b
    decreases |run|
  {
    if run != [] {
      assert (run + b)[1..] == run[1..] + b;
      DropRunOfRun(run[1..], b);
    } else {
      assert run + b == b;
    }
  }

  /** Each maximal run of reserved characters becomes exactly one '_', and
      the text on either side is collapsed on its own. */
  lemma {:induction false} CollapseRun(a: string, run: string, b: string)
    requires a == [] || !IsReserved(a[|a| - 1])
    requires run != [] && AllReserved(run)
    requires b == [] || !IsReserved(b[0])
    ensures CollapseReserved(a + run + b) == CollapseReserved(a) + "_" + CollapseReserved(b)
    decreases |a|, 1
  {
    if a == [] {
      assert a + run + b == run + b;
      CollapseRunFirst(run, b);
    } else if IsReserved(a[0]) {
      CollapseRunAfterRun(a, run, b);
    } else {
      CollapseRunAfterChar(a, run, b);
    }
  }

  /** CollapseRun with nothing before the run. */
  lemma CollapseRunFirst(run: string, b: string)
    requires run != [] && AllReserved(run)
    requires b == [] || !IsReserved(b[0])
    ensures CollapseReserved(run + b) == "_" + CollapseReserved(b)
  {
    assert (run + b)[0] == run[0];
    DropRunOfRun(run, b);
  }

  /** CollapseRun when a starts with a kept character. */
  lemma {:induction false} CollapseRunAfterChar(a: string, run: string, b: string)
    requires a != [] && !IsReserved(a[0]) && !IsReserved(a[|a| - 1])
    requires run != [] && AllReserved(run)
    requires b == [] || !IsReserved(b[0])
    ensures CollapseReserved(a + run + b) == CollapseReserved(a) + "_" + CollapseReserved(b)
    decreases |a|, 0
  {
    var t := a[1..];
    CharStep(a, run, b);
    assert t == [] || t[|t| - 1] == a[|a| - 1];
    CollapseRun(t, run, b);
    Regroup([a[0]], CollapseReserved(t), CollapseReserved(b));
  }

  /** A kept first character is copied and the rest collapsed. */
  lemma CharStep(a: string, run: string, b: string)
    requires a != [] && !IsReserved(a[0])
    ensures CollapseReserved(a + run + b) == [a[0]] + CollapseReserved(a[1..] + run + b)
    ensures CollapseReserved(a) == [a[0]] + CollapseReserved(a[1..])
  {
    var s := a + run + b;
    assert s[0] == a[0] && s[1..] == a[1..] + run + b;
  }

  lemma Regroup(x: string, y: string, z: string)
    ensures x + (y + "_" + z) == (x + y) + "_" + z
  {
  }

  /** CollapseRun when a starts with a run of its own: that run is dropped
      first and the rest of a still ends with a kept character. */
  lemma {:induction false} CollapseRunAfterRun(a: string, run: string, b: string)
    requires a != [] && IsReserved(a[0]) && !IsReserved(a[|a| - 1])
    requires run != [] && AllReserved(run)
    requires b == [] || !IsReserved(b[0])
    ensures CollapseReserved(a + run + b) == CollapseReserved(a) + "_" + CollapseReserved(b)
    decreases |a|, 0
  {
    var d := DropRun(a);
    DropRunKeepsLast(a);
    RunStep(a, run, b);
    CollapseRun(d, run, b);
    Regroup("_", CollapseReserved(d), CollapseReserved(b));
  }

  /** A leading run becomes one '_', whatever follows the kept character
      that ends a. */
  lemma RunStep(a: string, run: string, b: string)
    requires a != [] && IsReserved(a[0]) && !IsReserved(a[|a| - 1])
    ensures CollapseReserved(a + run + b) == "_" + CollapseReserved(DropRun(a) + run + b)
    ensures CollapseReserved(a) == "_" + CollapseReserved(DropRun(a))
  {
    var s := a + run + b;
    assert s == a + (run + b);
    DropRunAppend(a, run + b);
    assert DropRun(a) + (run + b) == DropRun(a) + run + b;
    assert s[0] == a[0];
  }

  /** A run at the start of a is dropped without reaching a's last,
      kept character. */
  lemma {:induction false} DropRunKeepsLast(a: string)
    requires a != [] && !IsReserved(a[|a| - 1])
    ensures DropRun(a) != []
    ensures DropRun(a)[|DropRun(a)| - 1] == a[|a| - 1]
  {
    if IsReserved(a[0]) {
      assert a[1..][|a| - 2] == a[|a| - 1];
      DropRunKeepsLast(a[1..]);
    }
  }

  /** Dropping control characters works piece by piece. */
  lemma {:induction false} StripControlAppend(a: string, b: string)
    ensures StripControl(a + b) == StripControl(a) + StripControl(b)
    decreases |a|
  {
    if a == [] {
      assert a + b == b;
    } else {
      assert (a + b)[1..] == a[1..] + b;
      StripControlAppend(a[1..], b);
    }
  }

  /** A title already free of padding, reserved and control characters, and
      no longer than 80 runes, is its own file-name stem. */
  lemma SanitizeIdentity(title: string, unix: int)
    requires MinInt64 <= unix <= MaxInt64
    requires title != [] && !IsSpace(title[0]) && !IsSpace(title[|title| - 1])
    requires NoReserved(title) && NoControl(title) && |title| <= MaxLength
    ensures Sanitize(title, unix) == title
  {
    TrimSpacePadded("", title, "");
    assert "" + title + "" == title;
    CollapseIdentity(title);
    StripControlIdentity(title);
  }

  lemma {:induction false} StripControlIdentity(s: string)
    requires NoControl(s)
    ensures StripControl(s) == s
    decreases |s|
  {
    if s != [] {
      StripControlIdentity(s[1..]);
    }
  }
}
