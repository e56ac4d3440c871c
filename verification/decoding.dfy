/** Strict decoding of one top-level JSON value of a shard's stream into the
    fields of a raw event the exporter reads (main.go:104-114, 146-196).

    The JSON tokeniser and per-field type checks belong to the standard
    library and are not modelled: an object is its list of members, and a
    member's value is what the receiving field ends up holding.
 */
module Decoding {
  import opened Base
  import opened Schema

  /** One `"key": value` member of an object. `value` is the string's contents
      for a string-typed field, or the verbatim JSON text for a raw-message
      field such as `event_properties`. */
  datatype Member = Member(key: string, value: string)

  /** One top-level value read from a decompressed shard. */
  datatype Item =
    | Object(members: seq<Member>)
    | Null        // the literal `null`: decoding it into a struct is a no-op
    | Garbled     // a syntax error, or a top-level value that is not an object
    | Truncated   // the gzip stream underneath ends early or fails its checksum

  /** The five fields of a decoded event that the exporter reads. The other
      44 fields are decoded and never used. */
  datatype RawEvent = RawEvent(
    eventTime: string,
    eventType: string,
    userId: string,
    eventProperties: string,
    userProperties: string)

  /** A fresh event: the decoder fills a zero-valued struct on every iteration. */
  const EmptyEvent := RawEvent("", "", "", "", "")

  /** Index of the first false flag, if any. */
  function FirstFalse(flags: seq<bool>): (r: Option<nat>)
    ensures r.None? <==> forall i :: 0 <= i < |flags| ==> flags[i]
    ensures r.Some? ==>
      && r.value < |flags|
      && !flags[r.value]
      && forall i :: 0 <= i < r.value ==> flags[i]
  {
    if |flags| == 0 then None
    else if !flags[0] then Some(0)
    else
      var rest := flags[1..];
      assert forall i :: 1 <= i < |flags| ==> flags[i] == rest[i - 1];
      match FirstFalse(rest)
      case None => None
      case Some(k) => Some(k + 1)
  }

  /** Whether each member's key is recognised, member by member. */
  function KnownFlags(ms: seq<Member>): (flags: seq<bool>)
    ensures |flags| == |ms|
    ensures forall i :: 0 <= i < |ms| ==> flags[i] == IsKnownKey(ms[i].key)
  {
    seq(|ms|, i requires 0 <= i < |ms| => IsKnownKey(ms[i].key))
  }

  /** Index of the first member whose key is not recognised, if any. The
      decoder finishes the object but reports the first such key. */
  function FirstUnknown(ms: seq<Member>): (r: Option<nat>)
    ensures r.None? <==> forall i :: 0 <= i < |ms| ==> IsKnownKey(ms[i].key)
    ensures r.Some? ==>
      && r.value < |ms|
      && !IsKnownKey(ms[r.value].key)
      && forall i :: 0 <= i < r.value ==> IsKnownKey(ms[i].key)
  {
    FirstFalse(KnownFlags(ms))
  }

  /** What the field tagged `tag` holds after decoding the members `ms`:
      each matching member overwrites the field in turn. */
  function Field(ms: seq<Member>, tag: string): string {
    if |ms| == 0 then ""
    else if Matches(ms[|ms| - 1].key, tag) then ms[|ms| - 1].value
    else Field(ms[..|ms| - 1], tag)
  }

  /** Member `j` is the last one whose key matches `tag`. */
  predicate LastMatch(ms: seq<Member>, tag: string, j: int) {
    && 0 <= j < |ms| && Matches(ms[j].key, tag)
    && forall k :: j < k < |ms| ==> !Matches(ms[k].key, tag)
  }

  /** A field no member matches keeps its zero value, the empty string. */
  lemma {:induction false} FieldUnmatched(ms: seq<Member>, tag: string)
    requires forall i :: 0 <= i < |ms| ==> !Matches(ms[i].key, tag)
    ensures Field(ms, tag) == ""
  {
    if |ms| > 0 {
      var init := ms[..|ms| - 1];
      assert forall i :: 0 <= i < |init| ==> init[i] == ms[i];
      FieldUnmatched(init, tag);
    }
  }

  /** Otherwise the field holds the value of the last matching member. */
  lemma {:induction false} FieldIsLastMatch(ms: seq<Member>, tag: string, j: int)
    requires LastMatch(ms, tag, j)
    ensures Field(ms, tag) == ms[j].value
  {
    var last := |ms| - 1;
    if j < last {
      assert !Matches(ms[last].key, tag);
      var init := ms[..last];
      assert forall i :: 0 <= i < |init| ==> init[i] == ms[i];
      assert LastMatch(init, tag, j);
      FieldIsLastMatch(init, tag, j);
    }
  }

  /** The event the decoder builds from the members of an accepted object. */
  function EventOf(ms: seq<Member>): RawEvent {
    RawEvent(Field(ms, "event_time"), Field(ms, "event_type"), Field(ms, "user_id"),
             Field(ms, "event_properties"), Field(ms, "user_properties"))
  }

  /** Decoding an object: the first unrecognised key fails it, otherwise
      the five read fields are filled in. */
  function ObjectResult(ms: seq<Member>): Result<RawEvent, Fatal> {
    match FirstUnknown(ms)
    case Some(k) => Failure(DecodeError(UnknownField(ms[k].key)))
    case None => Success(EventOf(ms))
  }

  /** Decoding one value with unknown fields disallowed. */
  function Decode(item: Item): (r: Result<RawEvent, Fatal>)
    ensures item.Object? ==>
      (r.Success? <==> forall i :: 0 <= i < |item.members| ==> IsKnownKey(item.members[i].key))
    ensures item.Object? && r.Failure? ==>
      exists i :: 0 <= i < |item.members|
        && !IsKnownKey(item.members[i].key)
        && (forall j :: 0 <= j < i ==> IsKnownKey(item.members[j].key))
        && r.error == DecodeError(UnknownField(item.members[i].key))
    ensures item.Object? && r.Success? ==>
      && r.value.eventTime == Field(item.members, "event_time")
      && r.value.eventType == Field(item.members, "event_type")
      && r.value.userId == Field(item.members, "user_id")
      && r.value.eventProperties == Field(item.members, "event_properties")
      && r.value.userProperties == Field(item.members, "user_properties")
    ensures item.Null? ==> r == Success(EmptyEvent)
    ensures item.Garbled? ==> r == Failure(DecodeError(MalformedJson))
    ensures item.Truncated? ==> r == Failure(ExtractError)
  {
    match item
    case Object(ms) => ObjectResult(ms)
    case Null => Success(EmptyEvent)
    case Garbled => Failure(DecodeError(MalformedJson))
    case Truncated => Failure(ExtractError)
  }

  /** The five tags the exporter reads. */
  predicate IsProjectedTag(key: string) {
    || Matches(key, "event_time") || Matches(key, "event_type") || Matches(key, "user_id")
    || Matches(key, "event_properties") || Matches(key, "user_properties")
  }

  /** Where an index into a sequence lands once an element is inserted at
      position `n`. */
  function ShiftPast(o: Option<nat>, n: nat): Option<nat> {
    match o
    case None => None
    case Some(a) => Some(if a < n then a else a + 1)
  }

  /** Inserting a true flag anywhere moves the first false flag past it and
      changes nothing else. */
  lemma {:induction false} FirstFalseInsertTrue(f1: seq<bool>, f2: seq<bool>)
    ensures FirstFalse(f1 + [true] + f2) == ShiftPast(FirstFalse(f1 + f2), |f1|)
  {
    var xs, ys := f1 + [true] + f2, f1 + f2;
    if |f1| == 0 {
      assert ys == f2;
      assert xs[1..] == f2;
    } else if f1[0] {
      assert xs[1..] == f1[1..] + [true] + f2;
      assert ys[1..] == f1[1..] + f2;
      FirstFalseInsertTrue(f1[1..], f2);
    } else {
      assert xs[0] == ys[0] == f1[0];
    }
  }

  lemma KnownFlagsAppend(a: seq<Member>, b: seq<Member>)
    ensures KnownFlags(a + b) == KnownFlags(a) + KnownFlags(b)
  {
    var ab := a + b;
    forall i | 0 <= i < |ab| ensures KnownFlags(ab)[i] == (KnownFlags(a) + KnownFlags(b))[i] {
      if i < |a| {
        assert ab[i] == a[i];
      } else {
        assert ab[i] == b[i - |a|];
      }
    }
  }

  /** Inserting a recognised member anywhere leaves the gate's verdict alone;
      a rejection still points at the same member, moved past the insertion. */
  lemma FirstUnknownInsertKnown(ms1: seq<Member>, m: Member, ms2: seq<Member>)
    requires IsKnownKey(m.key)
    ensures FirstUnknown(ms1 + [m] + ms2) == ShiftPast(FirstUnknown(ms1 + ms2), |ms1|)
  {
    KnownFlagsAppend(ms1 + [m], ms2);
    KnownFlagsAppend(ms1, [m]);
    KnownFlagsAppend(ms1, ms2);
    assert KnownFlags([m]) == [true];
    FirstFalseInsertTrue(KnownFlags(ms1), KnownFlags(ms2));
  }

  /** A member whose key does not match `tag` can be inserted anywhere
      without changing what the field tagged `tag` holds. */
  lemma {:induction false} FieldInsertUnmatched(ms1: seq<Member>, m: Member, ms2: seq<Member>, tag: string)
    requires !Matches(m.key, tag)
    ensures Field(ms1 + [m] + ms2, tag) == Field(ms1 + ms2, tag)
  {
    var xs, ys := ms1 + [m] + ms2, ms1 + ms2;
    if |ms2| == 0 {
      assert xs[..|xs| - 1] == ys;
    } else {
      var init := ms2[..|ms2| - 1];
      assert xs[..|xs| - 1] == ms1 + [m] + init;
      assert ys[..|ys| - 1] == ms1 + init;
      assert xs[|xs| - 1] == ys[|ys| - 1];
      FieldInsertUnmatched(ms1, m, init, tag);
    }
  }

  /** A member outside the five read tags leaves the built event alone. */
  lemma EventOfInsertUnread(ms1: seq<Member>, m: Member, ms2: seq<Member>)
    requires !IsProjectedTag(m.key)
    ensures EventOf(ms1 + [m] + ms2) == EventOf(ms1 + ms2)
  {
    FieldInsertUnmatched(ms1, m, ms2, "event_time");
    FieldInsertUnmatched(ms1, m, ms2, "event_type");
    FieldInsertUnmatched(ms1, m, ms2, "user_id");
    FieldInsertUnmatched(ms1, m, ms2, "event_properties");
    FieldInsertUnmatched(ms1, m, ms2, "user_properties");
  }

  /** Decoding sees an object only through the gate's verdict, the key it
      names and the built event: two objects agreeing on those decode alike. */
  lemma ObjectResultAgree(xs: seq<Member>, ys: seq<Member>)
    requires FirstUnknown(xs).None? == FirstUnknown(ys).None?
    requires FirstUnknown(xs).Some? && FirstUnknown(ys).Some? ==>
      xs[FirstUnknown(xs).value].key == ys[FirstUnknown(ys).value].key
    requires FirstUnknown(xs).None? ==> EventOf(xs) == EventOf(ys)
    ensures ObjectResult(xs) == ObjectResult(ys)
  {
  }

  /** The member at index `a` without the insertion sits at the shifted
      index with it. */
  lemma InsertedIndex(ms1: seq<Member>, m: Member, ms2: seq<Member>, a: nat)
    requires a < |ms1 + ms2|
    ensures (ms1 + [m] + ms2)[if a < |ms1| then a else a + 1] == (ms1 + ms2)[a]
  {
    if a >= |ms1| {
      assert (ms1 + [m] + ms2)[a + 1] == ms2[a - |ms1|];
    }
  }

  lemma DecodeObject(ms: seq<Member>)
    ensures Decode(Object(ms)) == ObjectResult(ms)
  {
  }

  /** A recognised member that feeds none of the five read fields changes
      nothing the exporter sees: wherever it is inserted, the decoded value,
      an error included, is the same with or without it. */
  lemma OtherKnownMembersIgnored(ms1: seq<Member>, m: Member, ms2: seq<Member>)
    requires IsKnownKey(m.key) && !IsProjectedTag(m.key)
    ensures Decode(Object(ms1 + [m] + ms2)) == Decode(Object(ms1 + ms2))
  {
    var xs, ys := ms1 + [m] + ms2, ms1 + ms2;
    FirstUnknownInsertKnown(ms1, m, ms2);
    EventOfInsertUnread(ms1, m, ms2);
    if FirstUnknown(ys).Some? {
      InsertedIndex(ms1, m, ms2, FirstUnknown(ys).value);
    }
    ObjectResultAgree(xs, ys);
    DecodeObject(xs);
    DecodeObject(ys);
  }

  /** The strict gate rejects an object as soon as one key is foreign to the
      tag set, whatever else the object contains. */
  lemma UnknownKeyRejected(ms: seq<Member>, i: nat)
    requires i < |ms| && !IsKnownKey(ms[i].key)
    ensures Decode(Object(ms)).Failure?
    ensures Decode(Object(ms)).error.DecodeError?
    ensures Decode(Object(ms)).error.cause.UnknownField?
  {
  }

  /** An object whose only member is keyed by some spelling of `user_id`
      decodes to an event carrying that user id and nothing else. */
  lemma OnlyUserIdObject(key: string, v: string)
    requires Matches(key, "user_id")
    ensures Decode(Object([Member(key, v)])) == Success(RawEvent("", "", v, "", ""))
  {
    CaseVariantsOfTagsAreKnown(key, "user_id");
    assert |key| == 7 by {
      assert |Fold(key)| == |key| && |Fold("user_id")| == 7;
    }
    var ms := [Member(key, v)];
    assert !Matches(key, "event_time") && !Matches(key, "event_type");
    assert !Matches(key, "event_properties") && !Matches(key, "user_properties");
    FieldUnmatched(ms, "event_time");
    FieldUnmatched(ms, "event_type");
    FieldUnmatched(ms, "event_properties");
    FieldUnmatched(ms, "user_properties");
    FieldIsLastMatch(ms, "user_id", 0);
  }

  /** An object without members decodes to the zero event. */
  lemma EmptyObjectDecodes()
    ensures Decode(Object([])) == Success(EmptyEvent)
  {
  }
}
