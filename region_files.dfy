/** Per-region result files: the name `region_<k>.txt` written for region k
    (1-based), the pattern `region_(\d+)\.txt$` used to recognise such names,
    and the reconciliation that deletes files of regions that no longer exist
    (ocr_camera.py, `cleanup_extra_region_files` and the OCR cycle in `run`).
    The output directory is a map from file name to file contents. */
module RegionFiles {
  import opened Wrappers

  predicate IsDigit(c: char) { '0' <= c <= '9' }

  predicate AllDigits(s: string) { forall i :: 0 <= i < |s| ==> IsDigit(s[i]) }

  function DigitChar(d: nat): (c: char)
    requires d < 10
    ensures IsDigit(c) && c as int - '0' as int == d
  {
    ('0' as int + d) as char
  }

  /** Python's `str(n)`: decimal, no sign, no leading zeros. */
  function DecimalString(n: nat): (s: string)
    ensures |s| >= 1 && AllDigits(s)
    ensures |s| > 1 ==> s[0] != '0'
    decreases n
  {
    if n < 10 then [DigitChar(n)] else DecimalString(n / 10) + [DigitChar(n % 10)]
  }

  /** Python's `int(s)` on a string of decimal digits (leading zeros allowed). */
  function DigitsValue(s: string): (r: nat)
    requires AllDigits(s)
    // a number written without leading zeros is positive unless it is "0"
    ensures |s| >= 1 && s[0] != '0' ==> r >= 1
    // and `str(int(s))` gives it back
    ensures |s| >= 1 && (|s| == 1 || s[0] != '0') ==> DecimalString(r) == s
    decreases |s|
  {
    if s == [] then 0
    else
      var p := s[..|s| - 1];
      var d := s[|s| - 1] as int - '0' as int;
      var v := DigitsValue(p);
      assert (v * 10 + d) / 10 == v && (v * 10 + d) % 10 == d;
      assert p + [s[|s| - 1]] == s;
      v * 10 + d
  }

  /** Reading back the decimal form of `n` gives `n`. */
  lemma {:induction false} DecimalRoundTrip(n: nat)
    ensures DigitsValue(DecimalString(n)) == n
  {
    if n >= 10 {
      var s := DecimalString(n / 10);
      var t := s + [DigitChar(n % 10)];
      assert t[..|t| - 1] == s;
      DecimalRoundTrip(n / 10);
    }
  }

  /** `name` is `region_` + the digits `d` + `.txt`, possibly followed by one
      newline: the names `re.match(r"region_(\d+)\.txt$", name)` accepts, since
      the match is anchored at the start and `$` also matches just before a
      final newline. */
  predicate IsRegionName(name: string, d: string)
  {
    var n := "region_" + d + ".txt";
    |d| >= 1 && AllDigits(d) && (name == n || name == n + "\n")
  }

  /** The name without one final newline, if it has one. */
  function StripFinalNewline(name: string): string
  {
    if |name| > 0 && name[|name| - 1] == '\n' then name[..|name| - 1] else name
  }

  /** Every accepted name splits at fixed places into prefix, digits and suffix. */
  lemma RegionNameParts(name: string)
    ensures forall d :: IsRegionName(name, d) ==>
              var body := StripFinalNewline(name);
              |body| >= 12 && body[..7] == "region_" && body[|body| - 4..] == ".txt"
              && body[7..|body| - 4] == d
  {
    forall d | IsRegionName(name, d)
      ensures var body := StripFinalNewline(name);
              |body| >= 12 && body[..7] == "region_" && body[|body| - 4..] == ".txt"
              && body[7..|body| - 4] == d
    {
      var n := "region_" + d + ".txt";
      assert n[..7] == "region_" && n[|n| - 4..] == ".txt" && n[7..|n| - 4] == d;
      if name == n + "\n" {
        assert name[..|name| - 1] == n;
      }
    }
  }

  /** Conversely, prefix, middle and suffix put back together give the name. */
  lemma RegionNameJoin(name: string)
    requires var body := StripFinalNewline(name);
             |body| >= 12 && body[..7] == "region_" && body[|body| - 4..] == ".txt"
    ensures var body := StripFinalNewline(name);
            var n := "region_" + body[7..|body| - 4] + ".txt";
            name == n || name == n + "\n"
  {
    var body := StripFinalNewline(name);
    assert body == body[..7] + body[7..|body| - 4] + body[|body| - 4..];
    if body != name {
      assert name == body + "\n";
    }
  }

  /** `re.match(r"region_(\d+)\.txt$", name)` followed by `int(group(1))`. */
  function ParseRegionName(name: string): (k: Option<nat>)
    // every name of the accepted form is read as its digits
    ensures forall d :: IsRegionName(name, d) ==> k == Some(DigitsValue(d))
  {
    RegionNameParts(name);
    var body := StripFinalNewline(name);
    if |body| >= 12 && body[..7] == "region_" && body[|body| - 4..] == ".txt"
       && AllDigits(body[7..|body| - 4])
    then Some(DigitsValue(body[7..|body| - 4]))
    else None
  }

  /** Only names of the accepted form match. */
  lemma ParseRegionNameOnlyAccepted(name: string)
    requires ParseRegionName(name).Some?
    ensures exists d :: IsRegionName(name, d)
  {
    var body := StripFinalNewline(name);
    RegionNameJoin(name);
    assert IsRegionName(name, body[7..|body| - 4]);
  }

  /** The file written for region `k` (1-based), `f"region_{k}.txt"`: the
      pattern accepts it and reads back `k`. */
  function RegionFileName(k: nat): (name: string)
    ensures ParseRegionName(name) == Some(k)
  {
    DecimalRoundTrip(k);
    assert IsRegionName("region_" + DecimalString(k) + ".txt", DecimalString(k));
    "region_" + DecimalString(k) + ".txt"
  }

  /** `$` also matches before one final newline, so appending one to a name
      that has none does not change what the pattern reads. */
  lemma ParseTrailingNewline(name: string)
    requires |name| == 0 || name[|name| - 1] != '\n'
    ensures ParseRegionName(name + "\n") == ParseRegionName(name)
  {
    assert (name + "\n")[..|name|] == name;
  }

  /** Distinct regions write distinct files. */
  lemma RegionFileNameInjective(j: nat, k: nat)
    ensures RegionFileName(j) == RegionFileName(k) ==> j == k
  {
  }

  /** A name that the pattern accepts with an index above `n`: reconciliation
      deletes it. */
  predicate IsStale(name: string, n: nat)
  {
    ParseRegionName(name).Some? && ParseRegionName(name).value > n
  }

  /** The name written for one of the regions `1..n`. */
  predicate IsWrittenName(name: string, n: nat)
  {
    exists k :: 1 <= k <= n && name == RegionFileName(k)
  }

  /** Deletes every file whose name matches the pattern with an index above
      `n`, visiting the directory listing one name at a time. Every other file
      is kept with its contents. */
  method CleanupExtraRegionFiles(dir: map<string, string>, n: nat) returns (out: map<string, string>)
    ensures forall name :: name in out <==> name in dir && !IsStale(name, n)
    ensures forall name :: name in out ==> out[name] == dir[name]
  {
    out := dir;
    var listing := dir.Keys;
    while listing != {}
      invariant listing <= dir.Keys
      invariant forall name :: name in out <==> name in dir && (name in listing || !IsStale(name, n))
      invariant forall name :: name in out ==> out[name] == dir[name]
      decreases listing
    {
      var name :| name in listing;
      if IsStale(name, n) {
        out := out - {name};
      }
      listing := listing - {name};
    }
  }

  /** The directory `out` is what a full OCR cycle leaves behind when it
      started from `dir` and produced `texts` (one per region, in order). */
  predicate AfterCycle(dir: map<string, string>, texts: seq<string>, out: map<string, string>)
  {
    // region k's file holds text k-1
    && (forall k :: 1 <= k <= |texts| ==> RegionFileName(k) in out && out[RegionFileName(k)] == texts[k - 1])
    // no file of a region beyond the current count remains
    && (forall name :: name in out ==> !IsStale(name, |texts|))
    // every other file is untouched
    && (forall name :: name in dir && !IsStale(name, |texts|) && !IsWrittenName(name, |texts|)
          ==> name in out && out[name] == dir[name])
    // and nothing else appears
    && (forall name :: name in out ==> name in dir || IsWrittenName(name, |texts|))
  }

  /** The state of the directory while a cycle is writing: the files of
      regions `1..|texts|` hold their texts, nothing else was added, and every
      other file is as it was. */
  predicate WrittenUpTo(dir: map<string, string>, texts: seq<string>, out: map<string, string>)
  {
    FilesHold(texts, out) && OnlyAdded(dir, |texts|, out) && OthersKept(dir, |texts|, out)
  }

  /** The file of region k holds text k-1, for k in 1..|texts|. */
  predicate FilesHold(texts: seq<string>, out: map<string, string>)
  {
    forall k :: 1 <= k <= |texts| ==> RegionFileName(k) in out && out[RegionFileName(k)] == texts[k - 1]
  }

  /** Every file was there before or is one of regions 1..n. */
  predicate OnlyAdded(dir: map<string, string>, n: nat, out: map<string, string>)
  {
    forall name :: name in out ==> name in dir || IsWrittenName(name, n)
  }

  /** Every earlier file that is not one of regions 1..n is as it was. */
  predicate OthersKept(dir: map<string, string>, n: nat, out: map<string, string>)
  {
    forall name :: name in dir && !IsWrittenName(name, n) ==> name in out && out[name] == dir[name]
  }

  /** The names written up to region n are those up to n - 1 and the one of n. */
  lemma WrittenNameStep(name: string, n: nat)
    requires n >= 1
    ensures IsWrittenName(name, n) <==> IsWrittenName(name, n - 1) || name == RegionFileName(n)
  {
    if IsWrittenName(name, n) && name != RegionFileName(n) {
      var k :| 1 <= k <= n && name == RegionFileName(k);
      assert k != n;
    }
  }

  lemma WriteNextFiles(texts: seq<string>, out: map<string, string>, text: string)
    requires FilesHold(texts, out)
    ensures FilesHold(texts + [text], out[RegionFileName(|texts| + 1) := text])
  {
    var n := |texts| + 1;
    var t, o := texts + [text], out[RegionFileName(n) := text];
    forall k | 1 <= k <= |t|
      ensures RegionFileName(k) in o && o[RegionFileName(k)] == t[k - 1]
    {
      if k < n {
        RegionFileNameInjective(k, n);
        assert o[RegionFileName(k)] == out[RegionFileName(k)];
      }
    }
  }

  lemma WriteNextOrigin(dir: map<string, string>, n: nat, out: map<string, string>, text: string)
    requires OnlyAdded(dir, n, out)
    ensures OnlyAdded(dir, n + 1, out[RegionFileName(n + 1) := text])
  {
    forall name | name in out[RegionFileName(n + 1) := text]
      ensures name in dir || IsWrittenName(name, n + 1)
    {
      WrittenNameStep(name, n + 1);
    }
  }

  lemma WriteNextKept(dir: map<string, string>, n: nat, out: map<string, string>, text: string)
    requires OthersKept(dir, n, out)
    ensures OthersKept(dir, n + 1, out[RegionFileName(n + 1) := text])
  {
    forall name | name in dir && !IsWrittenName(name, n + 1)
      ensures name != RegionFileName(n + 1) && !IsWrittenName(name, n)
    {
      WrittenNameStep(name, n + 1);
    }
  }

  /** Writing the file of the next region extends the written prefix by one. */
  lemma WriteNext(dir: map<string, string>, texts: seq<string>, out: map<string, string>, text: string)
    requires WrittenUpTo(dir, texts, out)
    ensures WrittenUpTo(dir, texts + [text], out[RegionFileName(|texts| + 1) := text])
  {
    WriteNextFiles(texts, out, text);
    WriteNextOrigin(dir, |texts|, out, text);
    WriteNextKept(dir, |texts|, out, text);
  }

  /** Reconciling after all regions were written gives the directory a cycle
      promises. */
  lemma CleanupCompletesCycle(dir: map<string, string>, texts: seq<string>,
                              written: map<string, string>, out: map<string, string>)
    requires WrittenUpTo(dir, texts, written)
    requires forall name :: name in out <==> name in written && !IsStale(name, |texts|)
    requires forall name :: name in out ==> out[name] == written[name]
    ensures AfterCycle(dir, texts, out)
  {
    forall k | 1 <= k <= |texts|
      ensures !IsStale(RegionFileName(k), |texts|)
    {
    }
  }

  /** A concrete file name written for region 3. */
  lemma ParseRegion3()
    ensures ParseRegionName("region_3.txt") == Some(3)
  {
    assert DigitsValue("3") == 3 by {
      assert "3"[..0] == "";
    }
    assert "region_" + "3" + ".txt" == "region_3.txt";
    assert IsRegionName("region_3.txt", "3");
  }

  /** Leading zeros are accepted: a name the cycle never writes is still
      read as region 7. */
  lemma ParseLeadingZeros()
    ensures ParseRegionName("region_007.txt") == Some(7)
  {
    assert DigitsValue("007") == 7 by {
      assert "007"[..2] == "00" && "00"[..1] == "0" && "0"[..0] == "";
    }
    assert "region_" + "007" + ".txt" == "region_007.txt";
    assert IsRegionName("region_007.txt", "007");
  }

  /** One trailing newline is accepted. */
  lemma ParseNewlineExample()
    ensures ParseRegionName("region_3.txt\n") == Some(3)
  {
    ParseRegion3();
    ParseTrailingNewline("region_3.txt");
    assert "region_3.txt" + "\n" == "region_3.txt\n";
  }

  /** Concrete names the pattern rejects: anything else around the pattern. */
  lemma ParseRegionNameRejects()
    ensures ParseRegionName("region_.txt") == None
    ensures ParseRegionName("region_3.txt.bak") == None
    ensures ParseRegionName("old_region_3.txt") == None
    ensures ParseRegionName("notes.txt") == None
  {
    var e := "old_region_3.txt";
    assert e[..7] != "region_" by { assert e[0] == 'o'; }
  }
}
