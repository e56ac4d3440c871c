/** The recognised key set of an exported event, and the way the JSON decoder
    compares an object key with it.

    The decoder matches a key to a struct field when the two are equal after
    case folding. It folds ASCII letters to upper case and every other rune to
    the smallest rune of its Unicode fold orbit. The tags are lower-case ASCII,
    so besides the ASCII letters only two runes can ever match a tag letter:
    the Kelvin sign (which folds with `k`) and the long s (which folds with `s`).
 */
module Schema {

  /* The JSON tags declared on the raw event struct, in declaration order,
     seven to a row. The rows are kept apart so that facts about every tag
     can be checked one row at a time, and so that the search below is
     unfolded one row at a time. */
  const TagRow0: set<string> := {"server_received_time", "app", "device_carrier", "$schema", "city", "user_id", "uuid"}
  const TagRow1: set<string> := {"event_time", "platform", "os_version", "amplitude_id", "processed_time", "user_creation_time", "version_name"}
  const TagRow2: set<string> := {"ip_address", "paying", "dma", "group_properties", "user_properties", "client_upload_time", "$insert_id"}
  const TagRow3: set<string> := {"event_type", "library", "amplitude_attribution_ids", "device_type", "device_manufacturer", "start_version", "location_lng"}
  const TagRow4: set<string> := {"server_upload_time", "event_id", "location_lat", "os_name", "amplitude_event_type", "device_brand", "groups"}
  const TagRow5: set<string> := {"event_properties", "data", "device_id", "language", "device_model", "country", "region"}
  const TagRow6: set<string> := {"is_attribution_event", "adid", "session_id", "device_family", "sample_rate", "idfa", "client_event_time"}

  /** The 49 recognised keys. */
  const Tags: set<string> := TagRow0 + TagRow1 + TagRow2 + TagRow3 + TagRow4 + TagRow5 + TagRow6

  const KelvinSign: char := '\U{212A}'
  const LongS: char := '\U{017F}'

  /** ASCII letters in upper case, every other character unchanged. */
  function UpperChar(c: char): char {
    if 'a' <= c <= 'z' then (c as int - 32) as char else c
  }

  /** The fold class representative the decoder compares, as far as it can
      decide a match against an ASCII tag. */
  function FoldChar(c: char): char {
    if c == KelvinSign then 'K'
    else if c == LongS then 'S'
    else UpperChar(c)
  }

  function Fold(s: string): string {
    seq(|s|, i requires 0 <= i < |s| => FoldChar(s[i]))
  }

  /** True iff the decoder would store a member keyed `key` into the field tagged `tag`. */
  predicate Matches(key: string, tag: string) {
    Fold(key) == Fold(tag)
  }

  function TagRow(i: nat): set<string>
    requires i < 7
  {
    match i
    case 0 => TagRow0
    case 1 => TagRow1
    case 2 => TagRow2
    case 3 => TagRow3
    case 4 => TagRow4
    case 5 => TagRow5
    case _ => TagRow6
  }

  /** True iff `key` matches a tag in row `i` or a later row. */
  predicate KnownFrom(key: string, i: nat)
    decreases 7 - i
  {
    i < 7 && ((exists t :: t in TagRow(i) && Matches(key, t)) || KnownFrom(key, i + 1))
  }

  /** True iff strict decoding accepts `key`: it matches one of the declared tags. */
  predicate IsKnownKey(key: string) {
    KnownFrom(key, 0)
  }

  /** Union of row `i` and the rows after it. */
  function TagsFrom(i: nat): set<string>
    decreases 7 - i
  {
    if i < 7 then TagRow(i) + TagsFrom(i + 1) else {}
  }

  lemma {:induction false} KnownFromMeaning(key: string, i: nat)
    ensures KnownFrom(key, i) <==> exists t :: t in TagsFrom(i) && Matches(key, t)
    decreases 7 - i
  {
    if i < 7 {
      KnownFromMeaning(key, i + 1);
    }
  }

  /** The gate in one line: a key is accepted iff it matches some declared tag. */
  lemma KnownKeyMeaning(key: string)
    ensures IsKnownKey(key) <==> exists t :: t in Tags && Matches(key, t)
  {
    KnownFromMeaning(key, 0);
    assert TagsFrom(0) == Tags;
  }

  /** Characters that appear in a key as the export writes it: no upper-case
      ASCII letter and neither of the two non-ASCII runes that fold onto ASCII. */
  predicate PlainChar(c: char) {
    !('A' <= c <= 'Z') && c != KelvinSign && c != LongS
  }

  predicate IsPlain(s: string) {
    forall i :: 0 <= i < |s| ==> PlainChar(s[i])
  }

  /** The key with every ASCII letter in upper case. */
  function Upper(s: string): (u: string)
    ensures |u| == |s|
    ensures forall i :: 0 <= i < |s| ==> u[i] == UpperChar(s[i])
  {
    seq(|s|, i requires 0 <= i < |s| => UpperChar(s[i]))
  }

  lemma FoldInjectiveOnPlain(a: string, b: string)
    requires IsPlain(a) && IsPlain(b)
    ensures Fold(a) == Fold(b) <==> a == b
  {
    if Fold(a) == Fold(b) {
      forall i | 0 <= i < |a|
        ensures a[i] == b[i]
      {
        assert FoldChar(a[i]) == Fold(a)[i] == Fold(b)[i] == FoldChar(b[i]);
      }
    }
  }

  /* Plainness of the tags, one row at a time. */
  lemma TagRow0IsPlain(t: string) requires t in TagRow0 ensures IsPlain(t) {
    forall i | 0 <= i < |t| ensures PlainChar(t[i]) {}
  }
  lemma TagRow1IsPlain(t: string) requires t in TagRow1 ensures IsPlain(t) {
    forall i | 0 <= i < |t| ensures PlainChar(t[i]) {}
  }
  lemma TagRow2IsPlain(t: string) requires t in TagRow2 ensures IsPlain(t) {
    forall i | 0 <= i < |t| ensures PlainChar(t[i]) {}
  }
  lemma TagRow3IsPlain(t: string) requires t in TagRow3 ensures IsPlain(t) {
    forall i | 0 <= i < |t| ensures PlainChar(t[i]) {}
  }
  lemma TagRow4IsPlain(t: string) requires t in TagRow4 ensures IsPlain(t) {
    forall i | 0 <= i < |t| ensures PlainChar(t[i]) {}
  }
  lemma TagRow5IsPlain(t: string) requires t in TagRow5 ensures IsPlain(t) {
    forall i | 0 <= i < |t| ensures PlainChar(t[i]) {}
  }
  lemma TagRow6IsPlain(t: string) requires t in TagRow6 ensures IsPlain(t) {
    forall i | 0 <= i < |t| ensures PlainChar(t[i]) {}
  }

  lemma TagIsPlain(t: string)
    requires t in Tags
    ensures IsPlain(t)
  {
    if t in TagRow0 { TagRow0IsPlain(t); }
    else if t in TagRow1 { TagRow1IsPlain(t); }
    else if t in TagRow2 { TagRow2IsPlain(t); }
    else if t in TagRow3 { TagRow3IsPlain(t); }
    else if t in TagRow4 { TagRow4IsPlain(t); }
    else if t in TagRow5 { TagRow5IsPlain(t); }
    else { TagRow6IsPlain(t); }
  }

  /** For keys spelled the way the export spells them the gate is exact
      membership in the tag list. */
  lemma PlainKeyKnownIffTag(key: string)
    requires IsPlain(key)
    ensures IsKnownKey(key) <==> key in Tags
  {
    KnownKeyMeaning(key);
    if IsKnownKey(key) {
      var t :| t in Tags && Matches(key, t);
      TagIsPlain(t);
      FoldInjectiveOnPlain(key, t);
    }
    if key in Tags {
      assert Matches(key, key);
    }
  }

  /** The gate is case-insensitive: every case variant of a tag is accepted,
      in particular the spelling with all ASCII letters in upper case. */
  lemma CaseVariantsOfTagsAreKnown(key: string, t: string)
    requires t in Tags
    requires Fold(key) == Fold(t)
    ensures IsKnownKey(key)
    ensures IsKnownKey(Upper(t))
  {
    assert Fold(Upper(t)) == Fold(t) by {
      forall j | 0 <= j < |t|
        ensures Fold(Upper(t))[j] == Fold(t)[j]
      {
        assert FoldChar(UpperChar(t[j])) == FoldChar(t[j]);
      }
    }
    assert Matches(Upper(t), t);
    KnownKeyMeaning(key);
    KnownKeyMeaning(Upper(t));
  }

  /** A row-by-row witness search: a key matching a tag of row `j` is known. */
  lemma {:induction false} KnownFromRow(key: string, t: string, i: nat, j: nat)
    requires i <= j < 7
    requires t in TagRow(j) && Matches(key, t)
    ensures KnownFrom(key, i)
    decreases j - i
  {
    if i < j {
      KnownFromRow(key, t, i + 1, j);
    }
  }

  lemma MixedCaseUserIdMatches()
    ensures Matches("User_ID", "user_id")
  {
    var key, t := "User_ID", "user_id";
    forall j | 0 <= j < |t|
      ensures Fold(key)[j] == Fold(t)[j]
    {
      assert j in {0, 1, 2, 3, 4, 5, 6};
    }
  }

  lemma MixedCaseUserIdIsKnown()
    ensures IsKnownKey("User_ID")
  {
    MixedCaseUserIdMatches();
    assert "user_id" in TagRow(0);
    KnownFromRow("User_ID", "user_id", 0, 0);
  }

  lemma LongSSessionIdIsKnown()
    ensures IsKnownKey([LongS] + "ession_id")
  {
    var key, t := [LongS] + "ession_id", "session_id";
    assert Fold(key) == Fold(t) by {
      forall j | 0 <= j < |t|
        ensures Fold(key)[j] == Fold(t)[j]
      {
        assert j in {0, 1, 2, 3, 4, 5, 6, 7, 8, 9};
      }
    }
    assert t in TagRow(6);
    KnownFromRow(key, t, 0, 6);
  }
}
