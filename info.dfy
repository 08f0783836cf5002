/** The INFO column of a ClinVar data line: the semicolon-separated annotations
    `process_info_field` reads, and the review-status star table. */
module Info {

  import opened Failures
  import opened Text

  /** `clinvar_star_rating`: the review status of a record mapped to its star
      count, as the dictionary's entries in the order they are written. */
  const StarRating: seq<(string, string)> := [
    ("no_assertion_criteria_provided", "0"),
    ("no_assertion_provided", "0"),
    ("no_interpretation_for_the_single_variant", "0"),
    ("criteria_provided,_single_submitter", "1"),
    ("criteria_provided,_conflicting_interpretations", "1"),
    ("criteria_provided,_multiple_submitters,_no_conflicts", "2"),
    ("reviewed_by_expert_panel", "3"),
    ("practice_guideline", "4")
  ]

  /** Dictionary lookup `table[key]`, or None where Python raises KeyError. */
  function Lookup(table: seq<(string, string)>, key: string): Option<string>
    decreases |table|
  {
    if table == [] then None
    else if table[0].0 == key then Some(table[0].1)
    else Lookup(table[1..], key)
  }

  /** A lookup finds an entry of the table with that key, and finds one
      whenever the table has such an entry. */
  lemma {:induction false} LookupFinds(table: seq<(string, string)>, key: string)
    ensures Lookup(table, key).Some? ==> (key, Lookup(table, key).value) in table
    ensures Lookup(table, key).None? <==> forall p <- table :: p.0 != key
    decreases |table|
  {
    if table != [] && table[0].0 != key {
      LookupFinds(table[1..], key);
      assert forall p <- table :: p == table[0] || p in table[1..];
    }
  }

  /** The keys of the table are pairwise distinct, so it is a dictionary. */
  predicate DistinctKeys(table: seq<(string, string)>)
  {
    forall i, j :: 0 <= i < j < |table| ==> table[i].0 != table[j].0
  }

  /** In a table with distinct keys, every entry is what a lookup of its key returns. */
  lemma {:induction false} LookupEntry(table: seq<(string, string)>, i: nat)
    requires DistinctKeys(table) && i < |table|
    ensures Lookup(table, table[i].0) == Some(table[i].1)
    decreases i
  {
    if i > 0 {
      assert table[0].0 != table[i].0;
      assert table[1..][i - 1] == table[i];
      LookupEntry(table[1..], i - 1);
    }
  }

  /** The star table has eight distinct statuses and rates each with 0 to 4 stars. */
  lemma StarRatingRange()
    ensures |StarRating| == 8 && DistinctKeys(StarRating)
    ensures forall p <- StarRating :: p.1 in ["0", "1", "2", "3", "4"]
  {
  }

  /** Every status of the table is found with its own star count; a status
      outside the table is not found. */
  lemma StarRatingLookup(status: string)
    ensures (forall i :: 0 <= i < |StarRating| && StarRating[i].0 == status ==>
              Lookup(StarRating, status) == Some(StarRating[i].1))
    ensures Lookup(StarRating, status).Some? ==>
              Lookup(StarRating, status).value in ["0", "1", "2", "3", "4"]
    ensures (forall p <- StarRating :: p.0 != status) ==> Lookup(StarRating, status).None?
  {
    StarRatingRange();
    LookupFinds(StarRating, status);
    forall i | 0 <= i < |StarRating| && StarRating[i].0 == status
      ensures Lookup(StarRating, status) == Some(StarRating[i].1)
    {
      LookupEntry(StarRating, i);
    }
  }

  /** The `retinfo` dictionary: one entry per extracted annotation. */
  datatype InfoFields = InfoFields(
    clinSig: string,
    reviewStatus: string,
    stars: string,
    disease: string,
    alleleId: string,
    dbsnpId: string)

  /** The dictionary the caller builds before the INFO column is read. */
  const Defaults := InfoFields(".", ".", "0", ".", ".", ".")

  /** Which branch of the `if`/`elif` chain a segment takes. */
  datatype Key = AlleleIdKey | DiseaseKey | ClinSigKey | RsKey | RevStatKey | NoKey

  /** Keys are tested by substring, in this fixed order; the first match wins. */
  function KeyOf(segment: string): Key
  {
    if Contains(segment, "ALLELEID=") then AlleleIdKey
    else if Contains(segment, "CLNDN=") then DiseaseKey
    else if Contains(segment, "CLNSIG=") then ClinSigKey
    else if Contains(segment, "RS=") then RsKey
    else if Contains(segment, "CLNREVSTAT=") then RevStatKey
    else NoKey
  }

  /** A segment that matched a key holds an `=`, so `split('=')[1]` cannot fail here. */
  lemma KeyedSegmentHasEquals(segment: string)
    requires KeyOf(segment) != NoKey
    ensures '=' in segment
  {
    match KeyOf(segment)
    case AlleleIdKey => ContainsChar(segment, "ALLELEID=", '=');
    case DiseaseKey => ContainsChar(segment, "CLNDN=", '=');
    case ClinSigKey => ContainsChar(segment, "CLNSIG=", '=');
    case RsKey => ContainsChar(segment, "RS=", '=');
    case RevStatKey => ContainsChar(segment, "CLNREVSTAT=", '=');
  }

  /** `field.split('=')[1]` for a segment that matched a key. */
  function SegmentValue(segment: string): (v: string)
    requires KeyOf(segment) != NoKey
    ensures '=' !in v
  {
    KeyedSegmentHasEquals(segment);
    SecondPiece(segment, '=').value
  }

  /** The string a keyed segment stores in its entry (the disease name with spaces for underscores). */
  function Stored(segment: string): string
    requires KeyOf(segment) != NoKey
  {
    if KeyOf(segment) == DiseaseKey then ReplaceChar(SegmentValue(segment), '_', ' ')
    else SegmentValue(segment)
  }

  /** The entry a key writes: review status for CLNREVSTAT (stars are handled apart). */
  function Get(f: InfoFields, k: Key): string
    requires k != NoKey
  {
    match k
    case AlleleIdKey => f.alleleId
    case DiseaseKey => f.disease
    case ClinSigKey => f.clinSig
    case RsKey => f.dbsnpId
    case RevStatKey => f.reviewStatus
  }

  /** One iteration of the loop in `process_info_field`. */
  function ApplySegment(f: InfoFields, segment: string): Result<InfoFields>
  {
    match KeyOf(segment)
    case AlleleIdKey => Ok(f.(alleleId := Stored(segment)))
    case DiseaseKey => Ok(f.(disease := Stored(segment)))
    case ClinSigKey => Ok(f.(clinSig := Stored(segment)))
    case RsKey => Ok(f.(dbsnpId := Stored(segment)))
    case RevStatKey =>
      var status := Stored(segment);
      var stars := Lookup(StarRating, status);
      if stars.Some? then Ok(f.(reviewStatus := status, stars := stars.value))
      else Err(UnknownReviewStatus(status))
    case NoKey => Ok(f)
  }

  /** The whole loop: the segments applied in order, stopping at the first failure. */
  function ApplySegments(f: InfoFields, segments: seq<string>): Result<InfoFields>
    decreases |segments|
  {
    if segments == [] then Ok(f)
    else
      match ApplySegment(f, segments[0])
      case Err(e) => Err(e)
      case Ok(g) => ApplySegments(g, segments[1..])
  }

  /** `process_info_field(info_field, retinfo, clinvar_star_rating)`: walks the
      segments of the INFO column and overwrites entries of `retinfo`; a review
      status missing from the star table ends the run. */
  method ProcessInfoField(infoField: string, retinfo: InfoFields) returns (r: Result<InfoFields>)
    ensures r == ApplySegments(retinfo, Split(infoField, ';'))
  {
    var segments := Split(infoField, ';');
    var info := retinfo;
    var i := 0;
    while i < |segments|
      invariant 0 <= i <= |segments|
      invariant ApplySegments(retinfo, segments) == ApplySegments(info, segments[i..])
    {
      var field := segments[i];
      ghost var before := info;
      ApplySegmentsAt(before, segments, i);
      if Contains(field, "ALLELEID=") {
        info := info.(alleleId := SegmentValue(field));
      } else if Contains(field, "CLNDN=") {
        info := info.(disease := ReplaceChar(SegmentValue(field), '_', ' '));
      } else if Contains(field, "CLNSIG=") {
        info := info.(clinSig := SegmentValue(field));
      } else if Contains(field, "RS=") {
        info := info.(dbsnpId := SegmentValue(field));
      } else if Contains(field, "CLNREVSTAT=") {
        var status := SegmentValue(field);
        var stars := Lookup(StarRating, status);
        if stars.None? {
          return Err(UnknownReviewStatus(status));
        }
        info := info.(reviewStatus := status, stars := stars.value);
      }
      assert ApplySegment(before, field) == Ok(info);
      i := i + 1;
    }
    r := Ok(info);
  }

  /** Applying the segments from position `i` on is applying segment `i`, then the rest. */
  lemma ApplySegmentsAt(f: InfoFields, segments: seq<string>, i: nat)
    requires i < |segments|
    ensures ApplySegments(f, segments[i..]) ==
            match ApplySegment(f, segments[i])
            case Err(e) => Err(e)
            case Ok(g) => ApplySegments(g, segments[i + 1..])
  {
    assert segments[i..][0] == segments[i] && segments[i..][1..] == segments[i + 1..];
  }

  // ---------------------------------------------------------------------------
  // What a run of the loop leaves in each entry.

  /** The last segment that takes branch `k`, scanning from the end. */
  function LastWithKey(segments: seq<string>, k: Key): (r: Option<string>)
    ensures r.Some? ==> r.value in segments && KeyOf(r.value) == k
    ensures r.None? <==> forall j :: 0 <= j < |segments| ==> KeyOf(segments[j]) != k
    decreases |segments|
  {
    if segments == [] then None
    else if KeyOf(segments[|segments| - 1]) == k then Some(segments[|segments| - 1])
    else
      var r := LastWithKey(segments[..|segments| - 1], k);
      assert forall j :: 0 <= j < |segments| - 1 ==> segments[..|segments| - 1][j] == segments[j];
      r
  }

  /** The segment found is the last one taking branch `k`: no segment after it does. */
  lemma {:induction false} LastWithKeyIsLast(segments: seq<string>, k: Key)
    ensures LastWithKey(segments, k).Some? ==>
            exists j :: 0 <= j < |segments| && segments[j] == LastWithKey(segments, k).value &&
                        forall m :: j < m < |segments| ==> KeyOf(segments[m]) != k
    decreases |segments|
  {
    if segments != [] {
      var n := |segments| - 1;
      var r := LastWithKey(segments, k);
      if KeyOf(segments[n]) == k {
        assert r == Some(segments[n]);
        assert segments[n] == r.value && n + 1 == |segments|;
      } else {
        var init := segments[..n];
        assert r == LastWithKey(init, k);
        LastWithKeyIsLast(init, k);
        if r.Some? {
          var j :| 0 <= j < |init| && init[j] == r.value &&
                   forall m :: j < m < |init| ==> KeyOf(init[m]) != k;
          assert segments[j] == r.value;
          assert forall m :: j < m < |segments| ==> KeyOf(segments[m]) != k by {
            assert forall m :: j < m < n ==> segments[m] == init[m];
          }
        }
      }
    }
  }

  /** Applying a sequence then one more segment is applying the longer sequence. */
  lemma {:induction false} ApplySegmentsSnoc(f: InfoFields, segments: seq<string>, s: string)
    ensures ApplySegments(f, segments + [s]) ==
            match ApplySegments(f, segments)
            case Err(e) => Err(e)
            case Ok(g) => ApplySegment(g, s)
    decreases |segments|
  {
    if segments == [] {
      assert [s][1..] == [];
    } else {
      assert (segments + [s])[1..] == segments[1..] + [s];
      match ApplySegment(f, segments[0])
      case Err(e) =>
      case Ok(g) => ApplySegmentsSnoc(g, segments[1..], s);
    }
  }

  /** A segment that matches none of the five keys changes nothing. */
  lemma UnmatchedSegmentIgnored(f: InfoFields, segment: string)
    requires !Contains(segment, "ALLELEID=") && !Contains(segment, "CLNDN=") &&
             !Contains(segment, "CLNSIG=") && !Contains(segment, "RS=") &&
             !Contains(segment, "CLNREVSTAT=")
    ensures ApplySegment(f, segment) == Ok(f)
  {
  }

  /** A segment writes only the entry of the first key it matches (and stars,
      for a review status); every other entry is left as it was. */
  lemma OnlyFirstMatchingKeyApplies(f: InfoFields, segment: string)
    requires ApplySegment(f, segment).Ok?
    ensures var g := ApplySegment(f, segment).value;
            (forall k :: k != NoKey && k != KeyOf(segment) ==> Get(g, k) == Get(f, k)) &&
            (KeyOf(segment) != NoKey ==> Get(g, KeyOf(segment)) == Stored(segment)) &&
            (KeyOf(segment) != RevStatKey ==> g.stars == f.stars)
  {
  }

  /** Every entry holds what the LAST segment of its key wrote, or its initial
      value when no segment has that key. */
  lemma {:induction false} LastOccurrenceWins(f: InfoFields, segments: seq<string>, k: Key)
    requires k != NoKey
    requires ApplySegments(f, segments).Ok?
    ensures Get(ApplySegments(f, segments).value, k) ==
            match LastWithKey(segments, k)
            case None => Get(f, k)
            case Some(s) => Stored(s)
    decreases |segments|
  {
    if segments != [] {
      var init, last := segments[..|segments| - 1], segments[|segments| - 1];
      assert segments == init + [last];
      ApplySegmentsSnoc(f, init, last);
      LastOccurrenceWins(f, init, k);
      OnlyFirstMatchingKeyApplies(ApplySegments(f, init).value, last);
    }
  }

  /** Stars come from the table entry of the last review status seen, or keep
      their initial value when there is none. */
  lemma {:induction false} StarsFollowLastReviewStatus(f: InfoFields, segments: seq<string>)
    requires ApplySegments(f, segments).Ok?
    ensures var r := ApplySegments(f, segments).value;
            match LastWithKey(segments, RevStatKey)
            case None => r.stars == f.stars
            case Some(s) => Lookup(StarRating, Stored(s)) == Some(r.stars)
    decreases |segments|
  {
    if segments != [] {
      var init, last := segments[..|segments| - 1], segments[|segments| - 1];
      assert segments == init + [last];
      ApplySegmentsSnoc(f, init, last);
      StarsFollowLastReviewStatus(f, init);
      if KeyOf(last) == RevStatKey {
        assert LastWithKey(segments, RevStatKey) == Some(last);
      } else {
        assert LastWithKey(segments, RevStatKey) == LastWithKey(init, RevStatKey);
        OnlyFirstMatchingKeyApplies(ApplySegments(f, init).value, last);
      }
    }
  }

  /** A CLNREVSTAT segment whose status is missing from the star table. */
  predicate IsUnknownStatus(segment: string)
  {
    KeyOf(segment) == RevStatKey && Lookup(StarRating, Stored(segment)).None?
  }

  /** The loop fails exactly when some CLNREVSTAT segment names a status missing
      from the table, and the failure reports the first such status. */
  lemma FailsOnUnknownStatus(f: InfoFields, segments: seq<string>)
    ensures ApplySegments(f, segments).Err? <==>
            exists j :: 0 <= j < |segments| && IsUnknownStatus(segments[j])
    ensures ApplySegments(f, segments).Err? ==>
            exists j :: 0 <= j < |segments| && IsUnknownStatus(segments[j]) &&
                        ApplySegments(f, segments).error == UnknownReviewStatus(Stored(segments[j])) &&
                        forall i :: 0 <= i < j ==> !IsUnknownStatus(segments[i])
  {
    if ApplySegments(f, segments).Err? {
      FailureNamesFirstUnknown(f, segments);
    }
    if exists j :: 0 <= j < |segments| && IsUnknownStatus(segments[j]) {
      var j :| 0 <= j < |segments| && IsUnknownStatus(segments[j]);
      UnknownStatusFails(f, segments, j);
    }
  }

  /** A segment with an unknown status makes the loop fail, whatever precedes it. */
  lemma UnknownStatusFails(f: InfoFields, segments: seq<string>, j: nat)
    requires j < |segments| && IsUnknownStatus(segments[j])
    ensures ApplySegments(f, segments).Err?
  {
    var pre, s, post := segments[..j], segments[j], segments[j + 1..];
    SplitAround(segments, j);
    ApplySegmentsSnoc(f, pre, s);
    if ApplySegments(f, pre).Ok? {
      UnknownStatusStep(ApplySegments(f, pre).value, s);
    }
    ApplySegmentsAppend(f, pre + [s], post);
  }

  lemma SplitAround(s: seq<string>, j: nat)
    requires j < |s|
    ensures s == s[..j] + [s[j]] + s[j + 1..]
  {
  }

  /** Applying `a + b` is applying `a`, then `b` to what `a` left, unless `a` failed. */
  lemma {:induction false} ApplySegmentsAppend(f: InfoFields, a: seq<string>, b: seq<string>)
    ensures ApplySegments(f, a + b) ==
            match ApplySegments(f, a)
            case Err(e) => Err(e)
            case Ok(g) => ApplySegments(g, b)
    decreases |a|
  {
    if a == [] {
      assert a + b == b;
    } else {
      assert (a + b)[0] == a[0] && (a + b)[1..] == a[1..] + b;
      match ApplySegment(f, a[0])
      case Err(e) =>
      case Ok(g) => ApplySegmentsAppend(g, a[1..], b);
    }
  }

  /** A segment with an unknown status fails on its own. */
  lemma UnknownStatusStep(f: InfoFields, segment: string)
    requires IsUnknownStatus(segment)
    ensures ApplySegment(f, segment) == Err(UnknownReviewStatus(Stored(segment)))
  {
  }

  /** A failure names the status of the first segment whose status is unknown. */
  lemma {:induction false} FailureNamesFirstUnknown(f: InfoFields, segments: seq<string>)
    requires ApplySegments(f, segments).Err?
    ensures exists j :: 0 <= j < |segments| && IsUnknownStatus(segments[j]) &&
                        ApplySegments(f, segments).error == UnknownReviewStatus(Stored(segments[j])) &&
                        forall i :: 0 <= i < j ==> !IsUnknownStatus(segments[i])
    decreases |segments|
  {
    var s, rest := segments[0], segments[1..];
    match ApplySegment(f, s)
    case Err(e) =>
      assert IsUnknownStatus(segments[0]);
    case Ok(g) =>
      assert !IsUnknownStatus(s);
      FailureNamesFirstUnknown(g, rest);
      var j :| 0 <= j < |rest| && IsUnknownStatus(rest[j]) &&
               ApplySegments(g, rest).error == UnknownReviewStatus(Stored(rest[j])) &&
               forall i :: 0 <= i < j ==> !IsUnknownStatus(rest[i]);
      assert segments[j + 1] == rest[j];
      assert forall i :: 1 <= i < j + 1 ==> segments[i] == rest[i - 1];
  }

  /** The disease entry never keeps an underscore once a CLNDN segment wrote it. */
  lemma DiseaseHasNoUnderscore(f: InfoFields, segments: seq<string>)
    requires '_' !in f.disease
    requires ApplySegments(f, segments).Ok?
    ensures '_' !in ApplySegments(f, segments).value.disease
  {
    LastOccurrenceWins(f, segments, DiseaseKey);
  }

  /** Starting from the caller's defaults, the stars entry is always one of `0`..`4`. */
  lemma StarsInRange(segments: seq<string>)
    requires ApplySegments(Defaults, segments).Ok?
    ensures ApplySegments(Defaults, segments).value.stars in ["0", "1", "2", "3", "4"]
  {
    StarsFollowLastReviewStatus(Defaults, segments);
    match LastWithKey(segments, RevStatKey)
    case None =>
    case Some(s) => StarRatingLookup(Stored(s));
  }

  /** No entry of `f` contains the character `c`. */
  predicate EntriesAvoid(f: InfoFields, c: char)
  {
    c !in f.clinSig && c !in f.reviewStatus && c !in f.stars &&
    c !in f.disease && c !in f.alleleId && c !in f.dbsnpId
  }

  /** A character that is in no segment (and is neither a space nor a star
      digit) never reaches an entry: every entry is copied out of a segment. */
  lemma {:induction false} EntriesAvoidChar(f: InfoFields, segments: seq<string>, c: char)
    requires c != ' ' && c !in "01234"
    requires forall seg <- segments :: c !in seg
    requires EntriesAvoid(f, c)
    requires ApplySegments(f, segments).Ok?
    ensures EntriesAvoid(ApplySegments(f, segments).value, c)
    decreases |segments|
  {
    if segments != [] {
      var seg := segments[0];
      if KeyOf(seg) != NoKey {
        KeyedSegmentHasEquals(seg);
        SplitPiecesAvoid(seg, '=', c);
        assert Split(seg, '=')[1] in Split(seg, '=');
        assert c !in SegmentValue(seg);
        if KeyOf(seg) == RevStatKey {
          StarRatingLookup(Stored(seg));
        }
      }
      assert forall s <- segments[1..] :: s in segments;
      EntriesAvoidChar(ApplySegment(f, seg).value, segments[1..], c);
    }
  }
}
