/**
 * Metadata carried by image file names of the form NAME_YYYYMMDD_NUM, and the
 * YYYYMMDD -> YYYY/MM/DD date rendering shown next to the image.
 */
module FileNames {
  import opened Wrappers
  import opened Strings

  /** The pair (name, date) that the parser returns. */
  datatype Metadata = Metadata(name: string, date: string)

  /**
   * Declarative meaning of the pattern `[A-Za-z0-9]+_\d{8}_\d+` as a whole-string
   * match: a non-empty alphanumeric name of length k, '_', eight digits, '_', and
   * at least one digit up to the end.
   */
  ghost predicate PatternMatch(t: string) {
    exists k :: PatternSplit(t, k)
  }

  /** t matches the pattern with the name group t[..k]. */
  predicate PatternSplit(t: string, k: int) {
    0 < k && k + 10 < |t| && AllAlnum(t[..k]) && t[k] == '_'
    && AllDigits(t[k + 1..k + 9]) && t[k + 9] == '_' && AllDigits(t[k + 10..])
  }

  /** End of the maximal run of alphanumeric characters that starts at i. */
  function AlnumRunEnd(s: string, i: nat): (j: nat)
    requires i <= |s|
    ensures i <= j <= |s|
    ensures forall k | i <= k < j :: IsAlnum(s[k])
    ensures j == |s| || !IsAlnum(s[j])
    decreases |s| - i
  {
    if i < |s| && IsAlnum(s[i]) then AlnumRunEnd(s, i + 1) else i
  }

  /**
   * The regular expression matches at start position i. Because '_' is not in
   * `[A-Za-z0-9]`, the greedy name group can only end where the alphanumeric run
   * starting at i ends, so no backtracking alternative exists.
   */
  predicate MatchesAt(s: string, i: nat)
    requires i <= |s|
  {
    i < |s| && IsAlnum(s[i]) &&
    var j := AlnumRunEnd(s, i);
    j + 10 < |s| && s[j] == '_' && AllDigits(s[j + 1..j + 9]) && s[j + 9] == '_' && IsDigit(s[j + 10])
  }

  /** `Regex.find`: the leftmost start position at or after `from` where the pattern matches. */
  function FindMatch(s: string, from: nat): (r: Option<nat>)
    requires from <= |s|
    ensures r.None? ==> forall i | from <= i < |s| :: !MatchesAt(s, i)
    ensures r.Some? ==> from <= r.value < |s| && MatchesAt(s, r.value)
    ensures r.Some? ==> forall i | from <= i < r.value :: !MatchesAt(s, i)
    decreases |s| - from
  {
    if from == |s| then None
    else if MatchesAt(s, from) then Some(from)
    else FindMatch(s, from + 1)
  }

  /** parseMetadataFromFilename: the two groups of the leftmost match, or None. */
  function ParseMetadata(filename: string): (r: Option<Metadata>)
    ensures r.Some? ==> |r.value.name| > 0 && AllAlnum(r.value.name)
    ensures r.Some? ==> |r.value.date| == 8 && AllDigits(r.value.date)
  {
    match FindMatch(filename, 0)
    case None => None
    case Some(p) =>
      var j := AlnumRunEnd(filename, p);
      Some(Metadata(filename[p..j], filename[j + 1..j + 9]))
  }

  /** The operational match test agrees with the declarative pattern at every start. */
  lemma MatchesAtIff(s: string, i: nat)
    requires i <= |s|
    ensures MatchesAt(s, i) <==> exists j | i <= j <= |s| :: PatternMatch(s[i..j])
  {
    if MatchesAt(s, i) {
      MatchesAtGivesPattern(s, i);
    }
    if exists j | i <= j <= |s| :: PatternMatch(s[i..j]) {
      var j :| i <= j <= |s| && PatternMatch(s[i..j]);
      PatternGivesMatchesAt(s, i, j);
    }
  }

  lemma MatchesAtGivesPattern(s: string, i: nat)
    requires i <= |s| && MatchesAt(s, i)
    ensures var j := AlnumRunEnd(s, i) + 11; j <= |s| && PatternMatch(s[i..j])
  {
    var e := AlnumRunEnd(s, i);
    var j := e + 11;
    var t := s[i..j];
    var k := e - i;
    assert AllAlnum(t[..k]) by {
      forall m | 0 <= m < k ensures IsAlnum(t[..k][m]) {
        assert t[..k][m] == s[i + m];
      }
    }
    assert t[k + 1..k + 9] == s[e + 1..e + 9];
    assert t[k + 10..] == [s[e + 10]];
    assert t[k] == '_' && t[k + 9] == '_';
    assert PatternSplit(t, k);
  }

  lemma PatternGivesMatchesAt(s: string, i: nat, j: nat)
    requires i <= j <= |s| && PatternMatch(s[i..j])
    ensures MatchesAt(s, i)
  {
    var t := s[i..j];
    var k :| PatternSplit(t, k);
    var e := i + k;
    forall m | i <= m < e ensures IsAlnum(s[m]) {
      assert s[m] == t[..k][m - i];
    }
    assert s[e] == t[k];
    RunEndAt(s, i, e);
    assert AlnumRunEnd(s, i) == e;
    var sDate, tDate := s[e + 1..e + 9], t[k + 1..k + 9];
    forall m | 0 <= m < 8 ensures sDate[m] == tDate[m] {
      assert sDate[m] == s[e + 1 + m] == t[k + 1 + m];
    }
    assert s[e + 1..e + 9] == t[k + 1..k + 9];
    assert s[e + 9] == t[k + 9];
    assert s[e + 10] == t[k + 10..][0];
    assert IsDigit(s[e + 10]);
  }

  /** A run of alphanumerics from i closed by a non-alphanumeric at m ends at m. */
  lemma {:induction false} RunEndAt(s: string, i: nat, m: nat)
    requires i <= m < |s|
    requires forall k | i <= k < m :: IsAlnum(s[k])
    requires !IsAlnum(s[m])
    ensures AlnumRunEnd(s, i) == m
    decreases m - i
  {
    if i < m {
      RunEndAt(s, i + 1, m);
    }
  }

  /** The parser returns None exactly when no substring of the name matches the pattern. */
  lemma ParseMetadataNoneIff(filename: string)
    ensures ParseMetadata(filename).None? <==>
      forall i, j | 0 <= i <= j <= |filename| :: !PatternMatch(filename[i..j])
  {
    if ParseMetadata(filename).None? {
      forall i, j | 0 <= i <= j <= |filename| ensures !PatternMatch(filename[i..j]) {
        MatchesAtIff(filename, i);
      }
    } else {
      var p := FindMatch(filename, 0).value;
      MatchesAtIff(filename, p);
    }
  }

  /**
   * A parsed result comes from the leftmost match: at its start p the file name reads
   * name + "_" + date + "_" followed by a digit, and no substring that starts before p
   * matches the pattern.
   */
  lemma ParseMetadataSome(filename: string)
    requires ParseMetadata(filename).Some?
    ensures var m := ParseMetadata(filename).value;
      var p := FindMatch(filename, 0).value;
      var n := |m.name| + 10;
      p + n < |filename| && filename[p..p + n] == m.name + "_" + m.date + "_" && IsDigit(filename[p + n])
      && forall i, j | 0 <= i < p && i <= j <= |filename| :: !PatternMatch(filename[i..j])
  {
    var m := ParseMetadata(filename).value;
    var p := FindMatch(filename, 0).value;
    var e := AlnumRunEnd(filename, p);
    assert filename[p..e + 10] == filename[p..e] + "_" + filename[e + 1..e + 9] + "_";
    forall i, j | 0 <= i < p && i <= j <= |filename| ensures !PatternMatch(filename[i..j]) {
      MatchesAtIff(filename, i);
    }
  }

  /** formatDateString: "YYYYMMDD" becomes "YYYY/MM/DD"; any other length is returned as is. */
  function FormatDate(date: string): (r: string)
    ensures |date| != 8 ==> r == date
    ensures |date| == 8 ==> |r| == 10 && r[4] == '/' && r[7] == '/'
    ensures |date| == 8 ==> r[..4] + r[5..7] + r[8..] == date
  {
    if |date| != 8 then date
    else
      var r := date[0..4] + "/" + date[4..6] + "/" + date[6..8];
      assert r[..4] + r[5..7] + r[8..] == date[0..4] + date[4..6] + date[6..8];
      assert date == date[0..4] + date[4..6] + date[6..8];
      r
  }

  /** The date of a parsed file name always renders as four digits, '/', two, '/', two. */
  lemma ParsedDateFormats(filename: string)
    requires ParseMetadata(filename).Some?
    ensures var r := FormatDate(ParseMetadata(filename).value.date);
      |r| == 10 && forall i | 0 <= i < 10 && i != 4 && i != 7 :: IsDigit(r[i])
  {
    var d := ParseMetadata(filename).value.date;
    var r := FormatDate(d);
    forall i | 0 <= i < 10 && i != 4 && i != 7 ensures IsDigit(r[i]) {
      if i < 4 { assert r[i] == (r[..4] + r[5..7] + r[8..])[i]; }
      else if i < 7 { assert r[i] == (r[..4] + r[5..7] + r[8..])[i - 1]; }
      else { assert r[i] == (r[..4] + r[5..7] + r[8..])[i - 2]; }
    }
  }

  /** The file names the application itself is given, e.g. "IMG_20240102_3.jpg". */
  lemma ParseExample()
    ensures ParseMetadata("IMG_20240102_3.jpg") == Some(Metadata("IMG", "20240102"))
    ensures ParseMetadata("photo.jpg").None?
  {
    var s := "IMG_20240102_3.jpg";
    RunEndAt(s, 0, 3);
    assert AllDigits(s[4..12]);
    assert MatchesAt(s, 0);
    assert s[0..3] == "IMG" && s[4..12] == "20240102";
    var t := "photo.jpg";
    forall i | 0 <= i < |t| ensures !MatchesAt(t, i) {
      if i < 5 { RunEndAt(t, i, 5); }
    }
    assert FindMatch(t, 0).None?;
  }
}
