/** Reading reviewed results back from the audit table
    (src/pipeline/audit_result_sync.rs). */
module AuditResults {
  import opened Wrappers
  import opened Text
  import opened Json
  import opened CellValues
  import opened TargetTable

  // ------------------------------------------------------------------ extra values

  /** `is_feishu_text_segment` */
  predicate IsTextSegment(v: Value) {
    && v.Obj? && GetStr(v.fields, "text").Some?
    && (GetStr(v.fields, "type").None? || GetStr(v.fields, "type").value == "text")
  }

  /** The `{ type, value }` envelope with a numeric type. */
  predicate IsWrapper(v: Value) {
    v.Obj? && "type" in v.fields && v.fields["type"].Num? && "value" in v.fields
  }

  predicate IsSegmentArray(v: Value) {
    v.Arr? && v.items != [] && forall i :: 0 <= i < |v.items| ==> IsTextSegment(v.items[i])
  }

  function SegmentTexts(items: seq<Value>): string {
    if items == [] then []
    else
      (if items[0].Obj? && GetStr(items[0].fields, "text").Some? then GetStr(items[0].fields, "text").value else [])
      + SegmentTexts(items[1..])
  }

  /** `normalize_audit_extra_value` */
  function NormalizeExtra(v: Value): Value
    decreases v
  {
    if IsWrapper(v) then NormalizeExtra(v.fields["value"])
    else if IsSegmentArray(v) then Str(SegmentTexts(v.items))
    else if IsTextSegment(v) then Str(GetStr(v.fields, "text").value)
    else v
  }

  /** All envelopes and segments are gone after one pass, so a second pass changes
      nothing. */
  lemma {:induction false} NormalizeExtraIsPlain(v: Value)
    ensures !IsWrapper(NormalizeExtra(v)) && !IsSegmentArray(NormalizeExtra(v)) && !IsTextSegment(NormalizeExtra(v))
    ensures NormalizeExtra(NormalizeExtra(v)) == NormalizeExtra(v)
    decreases v
  {
    if IsWrapper(v) {
      NormalizeExtraIsPlain(v.fields["value"]);
    }
  }

  /** A text segment that holds this text. */
  predicate HoldsText(v: Value, text: string) {
    v.Obj? && GetStr(v.fields, "text") == Some(text) && GetStr(v.fields, "type") in {None, Some("text")}
  }

  /** What survives: of a segment its text, of an array of segments their texts one after
      the other and uncleaned, of an envelope what it holds; any other value as it is. */
  lemma {:induction false} NormalizeExtraKeeps(v: Value, parts: seq<string>)
    ensures |parts| == 1 && HoldsText(v, parts[0]) && !IsWrapper(v) ==> NormalizeExtra(v) == Str(parts[0])
    ensures v.Arr? && parts != [] && HoldTexts(v.items, parts) ==> NormalizeExtra(v) == Str(Concat(parts))
    ensures v.Obj? && "type" in v.fields && v.fields["type"].Num? && "value" in v.fields ==>
              NormalizeExtra(v) == NormalizeExtra(v.fields["value"])
    ensures !v.Obj? && !v.Arr? ==> NormalizeExtra(v) == v
    ensures v.Obj? && (forall t :: !HoldsText(v, t)) && !IsWrapper(v) ==> NormalizeExtra(v) == v
    ensures v.Arr? && (v.items == [] || forall texts :: !HoldTexts(v.items, texts)) ==> NormalizeExtra(v) == v
  {
    hide SegmentTexts;
    if v.Arr? && HoldTexts(v.items, parts) {
      SegmentTextsJoined(v.items, parts);
    }
    if IsTextSegment(v) { assert HoldsText(v, GetStr(v.fields, "text").value); }
    if IsSegmentArray(v) {
      var texts := seq(|v.items|, i requires 0 <= i < |v.items| => GetStr(v.items[i].fields, "text").value);
      assert HoldTexts(v.items, texts);
    }
  }

  predicate HoldTexts(items: seq<Value>, parts: seq<string>) {
    |items| == |parts| && forall i :: 0 <= i < |parts| ==> HoldsText(items[i], parts[i])
  }

  lemma {:induction false} SegmentTextsJoined(items: seq<Value>, parts: seq<string>)
    requires HoldTexts(items, parts)
    ensures SegmentTexts(items) == Concat(parts)
  {
    if parts != [] {
      SegmentTextsJoined(items[1..], parts[1..]);
    }
  }

  // ------------------------------------------------------------------ extra fields

  const EXTRA_PREFIX := "【额外】"
  const LABEL_FIELD := "审核标签"

  /** The name behind the prefix; it may be empty, which is an error. */
  function ExtraName(field: string): Option<string> {
    var name := Trim(field);
    if EXTRA_PREFIX <= name then Some(Trim(name[|EXTRA_PREFIX|..])) else None
  }

  /** An extra field is one whose name begins with the prefix, whatever whitespace stands
      before it, and its extra name is what follows without the whitespace around it. */
  lemma {:induction false} ExtraNameOf(name: string, w: char)
    ensures HasCleanEnds(name) ==> ExtraName("【额外】" + name) == Some(name)
    ensures HasCleanEnds(name) && IsWhitespace(w) ==> ExtraName("【额外】" + [w] + name) == Some(name)
    ensures IsWhitespace(w) ==> ExtraName([w] + name) == ExtraName(name) == ExtraName(name + [w])
    ensures HasCleanEnds(name) && !("【额外】" <= name) ==> ExtraName(name) == None
  {
    hide Trim;
    if IsWhitespace(w) { TrimDropsEnds(name, w); }
    if HasCleanEnds(name) {
      TrimFixedPoint(name);
      TrimFixedPoint(EXTRA_PREFIX);
      TrimFixedPoint(EXTRA_PREFIX + name);
      assert (EXTRA_PREFIX + name)[|EXTRA_PREFIX|..] == name;
      if IsWhitespace(w) { BlankAfterPrefix(name, w); }
    }
  }

  lemma {:induction false} BlankAfterPrefix(name: string, w: char)
    requires HasCleanEnds(name) && IsWhitespace(w)
    ensures ExtraName(EXTRA_PREFIX + [w] + name) == Some(name)
  {
    hide Trim;
    var field := EXTRA_PREFIX + [w] + name;
    TrimFixedPoint(name);
    TrimFixedPoint(EXTRA_PREFIX);
    if name == [] {
      assert field == EXTRA_PREFIX + [w];
      TrimDropsEnds(EXTRA_PREFIX, w);
      assert EXTRA_PREFIX[|EXTRA_PREFIX|..] == [];
    } else {
      TrimFixedPoint(field);
      TrimDropsEnds(name, w);
      assert field[|EXTRA_PREFIX|..] == [w] + name;
    }
  }

  function ExtraNames(fields: Fields): set<string> {
    set n | n in fields && ExtraName(n).Some? :: ExtraName(n).value
  }

  /** No extra field is nameless, and fields of one extra name agree. */
  predicate ExtrasLegal(fields: Fields) {
    && "" !in ExtraNames(fields)
    && forall a, b :: a in fields && b in fields && ExtraName(a).Some? && ExtraName(a) == ExtraName(b) ==>
         NormalizeExtra(fields[a]) == NormalizeExtra(fields[b])
  }

  /** The extra object of legal fields. */
  ghost predicate IsExtraOf(extra: Fields, fields: Fields, names: set<string>)
    requires names <= fields.Keys
  {
    && (forall e :: e in extra ==> exists n :: n in names && ExtraName(n) == Some(e))
    && (forall n :: n in names && ExtraName(n).Some? ==>
          ExtraName(n).value in extra && extra[ExtraName(n).value] == NormalizeExtra(fields[n]))
  }

  /** `collect_audit_extra` */
  method CollectAuditExtra(fields: Fields) returns (extra: Option<Fields>)
    ensures extra.Some? <==> ExtrasLegal(fields)
    ensures extra.Some? ==> IsExtraOf(extra.value, fields, fields.Keys)
  {
    hide ExtraName, NormalizeExtra;
    var collected: Fields := map[];
    var left := fields.Keys;
    ghost var done: set<string> := {};
    while left != {}
      invariant left + done == fields.Keys
      invariant IsExtraOf(collected, fields, done)
      invariant "" !in collected
      decreases left
    {
      var field :| field in left;
      left, done := left - {field}, done + {field};
      var name := ExtraName(field);
      if name.None? { continue; }
      if name.value == "" {
        assert "" in ExtraNames(fields);
        return None;
      }
      var value := NormalizeExtra(fields[field]);
      if name.value in collected && collected[name.value] != value {
        ghost var other :| other in done && ExtraName(other) == name
          && (other == field || NormalizeExtra(fields[other]) != value);
        return None;
      }
      collected := collected[name.value := value];
    }
    CollectedIsLegal(collected, fields);
    extra := Some(collected);
  }

  lemma {:induction false} CollectedIsLegal(extra: Fields, fields: Fields)
    requires IsExtraOf(extra, fields, fields.Keys) && "" !in extra
    ensures ExtrasLegal(fields)
  {
    hide ExtraName, NormalizeExtra;
  }

  /** The extra object is determined by the fields. */
  lemma {:induction false} ExtraUnique(a: Fields, b: Fields, fields: Fields)
    requires IsExtraOf(a, fields, fields.Keys) && IsExtraOf(b, fields, fields.Keys)
    ensures a == b
  {
    hide ExtraName, NormalizeExtra;
    assert a.Keys == b.Keys;
  }

  // ---------------------------------------------------------------- reviewed records

  datatype AuditUpdate = AuditUpdate(key: string, result: string, tag: Option<string>, extra: Fields)

  function TrimmedText(fields: Fields, name: string): Option<string> {
    var found := FindField(fields, name);
    if found.None? || PlainString(found.value).None? then None else NonEmpty(Trim(PlainString(found.value).value))
  }

  /** It is the plain text of the cell, if there is any. */
  lemma {:induction false} TrimmedTextIsPlain(fields: Fields, name: string)
    ensures TrimmedText(fields, name)
         == match FindField(fields, name)
            case None => None
            case Some(v) => if PlainString(v) == Some([]) then None else PlainString(v)
  {
    hide FindField, PlainString, IsClean, Trim;
    if FindField(fields, name).Some? {
      var v := FindField(fields, name).value;
      PlainStringIsClean(v);
      if PlainString(v).Some? {
        CleanEnds(PlainString(v).value);
        TrimFixedPoint(PlainString(v).value);
      }
    }
  }

  /** A record counts when it has a key and a result. */
  predicate IsReviewed(r: Record, keyField: string, resultField: string) {
    r.fields.Obj? && TrimmedText(r.fields.fields, keyField).Some? && TrimmedText(r.fields.fields, resultField).Some?
  }

  /** The update a reviewed record stands for. */
  ghost predicate Yields(r: Record, keyField: string, resultField: string, u: AuditUpdate) {
    && IsReviewed(r, keyField, resultField)
    && u.key == TrimmedText(r.fields.fields, keyField).value
    && u.result == TrimmedText(r.fields.fields, resultField).value
    && u.tag == TrimmedText(r.fields.fields, LABEL_FIELD)
    && ExtrasLegal(r.fields.fields)
    && IsExtraOf(u.extra, r.fields.fields, r.fields.fields.Keys)
  }

  ghost predicate IsIllegal(r: Record, keyField: string, resultField: string) {
    IsReviewed(r, keyField, resultField) && !ExtrasLegal(r.fields.fields)
  }

  /** Two reviewed records of one key that do not say the same. */
  ghost predicate Disagree(a: Record, b: Record, keyField: string, resultField: string) {
    exists u, w ::
      Yields(a, keyField, resultField, u) && Yields(b, keyField, resultField, w) && u.key == w.key && u != w
  }

  /** Some reviewed record has illegal extra fields, or two reviewed records of one
      key disagree. */
  ghost predicate MustFail(records: seq<Record>, keyField: string, resultField: string) {
    || (exists i :: 0 <= i < |records| && IsIllegal(records[i], keyField, resultField))
    || (exists i, j ::
         0 <= i < |records| && 0 <= j < |records| && Disagree(records[i], records[j], keyField, resultField))
  }

  datatype CollectError = IllegalExtra(key: string) | Conflict(key: string)

  predicate KeysAscend(updates: seq<AuditUpdate>) {
    forall i, j :: 0 <= i < j < |updates| ==> LessEq(updates[i].key, updates[j].key) && updates[i].key != updates[j].key
  }

  /** One update per key, in key order, and exactly the ones the records stand for. */
  ghost predicate IsCollected(updates: seq<AuditUpdate>, records: seq<Record>, keyField: string, resultField: string) {
    && KeysAscend(updates)
    && (forall u :: u in updates ==> exists i :: 0 <= i < |records| && Yields(records[i], keyField, resultField, u))
    && (forall i, u :: 0 <= i < |records| && Yields(records[i], keyField, resultField, u) ==> u in updates)
  }

  /** The map of updates collected from the first records. */
  ghost predicate IsUpdateMap(updates: map<string, AuditUpdate>, records: seq<Record>, keyField: string,
      resultField: string) {
    && (forall k :: k in updates ==> updates[k].key == k && exists i ::
         0 <= i < |records| && Yields(records[i], keyField, resultField, updates[k]))
    && (forall i, u :: 0 <= i < |records| && Yields(records[i], keyField, resultField, u) ==>
         u.key in updates && updates[u.key] == u)
  }

  lemma {:induction false} YieldsOne(r: Record, keyField: string, resultField: string, u: AuditUpdate, w: AuditUpdate)
    requires Yields(r, keyField, resultField, u) && Yields(r, keyField, resultField, w)
    ensures u == w
  {
    hide TrimmedText, ExtrasLegal, IsExtraOf;
    ExtraUnique(u.extra, w.extra, r.fields.fields);
  }

  /** What one record adds. */
  datatype Review = Skipped | Illegal(key: string) | Reviewed(update: AuditUpdate)

  /** The body of the loop over the records, up to the insertion. */
  method ReviewOf(r: Record, keyField: string, resultField: string) returns (v: Review)
    ensures v.Illegal? <==> IsIllegal(r, keyField, resultField)
    ensures v.Illegal? ==> Some(v.key) == TrimmedText(r.fields.fields, keyField)
    ensures v.Skipped? <==> !IsReviewed(r, keyField, resultField)
    ensures v.Reviewed? ==> Yields(r, keyField, resultField, v.update)
  {
    hide TrimmedText, ExtrasLegal, IsExtraOf;
    if !r.fields.Obj? { return Skipped; }
    var fields := r.fields.fields;
    var key := TrimmedText(fields, keyField);
    if key.None? { return Skipped; }
    var result := TrimmedText(fields, resultField);
    if result.None? { return Skipped; }
    var tag := TrimmedText(fields, LABEL_FIELD);
    var extra := CollectAuditExtra(fields);
    if extra.None? { return Illegal(key.value); }
    return Reviewed(AuditUpdate(key.value, result.value, tag, extra.value));
  }

  lemma {:induction false} UpdateMapGrows(updates: map<string, AuditUpdate>, records: seq<Record>, r: Record,
      keyField: string, resultField: string, u: Option<AuditUpdate>)
    requires IsUpdateMap(updates, records, keyField, resultField)
    requires u.Some? ==>
             Yields(r, keyField, resultField, u.value) && (u.value.key in updates ==> updates[u.value.key] == u.value)
    requires u.None? ==> !IsReviewed(r, keyField, resultField)
    ensures IsUpdateMap(if u.Some? then updates[u.value.key := u.value]
            else updates, records + [r], keyField, resultField)
  {
    hide IsReviewed, TrimmedText, ExtrasLegal, IsExtraOf, Yields;
    var more := records + [r];
    var after := if u.Some? then updates[u.value.key := u.value] else updates;
    assert more[|records|] == r;
    forall k | k in after
      ensures after[k].key == k && exists i :: 0 <= i < |more| && Yields(more[i], keyField, resultField, after[k]) {
      if u.Some? && k == u.value.key {
        assert Yields(more[|records|], keyField, resultField, after[k]);
      } else {
        var i :| 0 <= i < |records| && Yields(records[i], keyField, resultField, updates[k]);
        assert more[i] == records[i];
      }
    }
    forall i, w | 0 <= i < |more| && Yields(more[i], keyField, resultField, w)
      ensures w.key in after && after[w.key] == w {
      if i < |records| {
        assert more[i] == records[i];
      } else {
        YieldsIsReviewed(r, keyField, resultField, w);
        YieldsOne(r, keyField, resultField, u.value, w);
      }
    }
  }

  lemma YieldsIsReviewed(r: Record, keyField: string, resultField: string, u: AuditUpdate)
    ensures Yields(r, keyField, resultField, u) ==>
            IsReviewed(r, keyField, resultField) && !IsIllegal(r, keyField, resultField)
  {
  }

  /** `updates.into_values()` of a map sorted by key. */
  method InKeyOrder(updates: map<string, AuditUpdate>) returns (r: seq<AuditUpdate>)
    requires forall k :: k in updates ==> updates[k].key == k
    ensures KeysAscend(r)
    ensures forall u :: u in r <==> u.key in updates && updates[u.key] == u
  {
    hide LessEq;
    r := [];
    var left := updates.Keys;
    while left != {}
      invariant left <= updates.Keys
      invariant KeysAscend(r)
      invariant forall u :: u in r <==> u.key in updates && u.key !in left && updates[u.key] == u
      invariant forall i, k :: 0 <= i < |r| && k in left ==> LessEq(r[i].key, k)
      decreases left
    {
      var k := Least(left);
      forall i | 0 <= i < |r| ensures r[i].key != k {
        assert r[i] in r;
      }
      r := r + [updates[k]];
      left := left - {k};
    }
  }

  /** `collect_reviewed_audit_results` */
  method CollectReviewedAuditResults(records: seq<Record>, keyField: string, resultField: string)
    returns (r: Result<seq<AuditUpdate>, CollectError>)
    ensures r.Err? <==> MustFail(records, keyField, resultField)
    ensures r.Ok? ==> IsCollected(r.value, records, keyField, resultField)
  {
    hide IsReviewed, IsIllegal, TrimmedText, ExtrasLegal, IsExtraOf, Yields, Disagree, IsUpdateMap, IsCollected,
      KeysAscend;
    var updates: map<string, AuditUpdate> := map[];
    NoUpdates(keyField, resultField);
    for n := 0 to |records|
      invariant IsUpdateMap(updates, records[..n], keyField, resultField)
      invariant forall i :: 0 <= i < n ==> !IsIllegal(records[i], keyField, resultField)
    {
      var review := ReviewOf(records[n], keyField, resultField);
      if review.Illegal? {
        return Err(IllegalExtra(review.key));
      }
      ghost var u := if review.Reviewed? then Some(review.update) else None;
      if review.Reviewed? {
        if review.update.key in updates && updates[review.update.key] != review.update {
          ConflictFound(updates, records, n, keyField, resultField, review.update);
          return Err(Conflict(review.update.key));
        }
      }
      UpdateMapGrows(updates, records[..n], records[n], keyField, resultField, u);
      assert records[..n + 1] == records[..n] + [records[n]];
      if review.Reviewed? {
        updates := updates[review.update.key := review.update];
      }
    }
    assert records[..|records|] == records;
    NoneDisagree(updates, records, keyField, resultField);
    UpdateMapKeys(updates, records, keyField, resultField);
    var collected := InKeyOrder(updates);
    CollectedFromMap(updates, collected, records, keyField, resultField);
    r := Ok(collected);
  }

  lemma NoUpdates(keyField: string, resultField: string)
    ensures IsUpdateMap(map[], [], keyField, resultField)
  {
  }

  lemma {:induction false} ConflictFound(updates: map<string, AuditUpdate>, records: seq<Record>, n: nat,
      keyField: string, resultField: string, u: AuditUpdate)
    requires n < |records| && IsUpdateMap(updates, records[..n], keyField, resultField)
    requires Yields(records[n], keyField, resultField, u) && u.key in updates && updates[u.key] != u
    ensures exists i, j ::
            0 <= i < |records| && 0 <= j < |records| && Disagree(records[i], records[j], keyField, resultField)
  {
    hide Yields;
    var i :| 0 <= i < n && Yields(records[..n][i], keyField, resultField, updates[u.key]);
    assert records[..n][i] == records[i];
    assert Disagree(records[i], records[n], keyField, resultField);
  }

  lemma {:induction false} NoneDisagree(updates: map<string, AuditUpdate>, records: seq<Record>, keyField: string,
      resultField: string)
    requires IsUpdateMap(updates, records, keyField, resultField)
    ensures forall i, j :: 0 <= i < |records| && 0 <= j < |records| ==>
            !Disagree(records[i], records[j], keyField, resultField)
  {
    hide Yields;
  }

  lemma {:induction false} UpdateMapKeys(updates: map<string, AuditUpdate>, records: seq<Record>, keyField: string,
      resultField: string)
    requires IsUpdateMap(updates, records, keyField, resultField)
    ensures forall k :: k in updates ==> updates[k].key == k
  {
    hide Yields;
  }

  lemma {:induction false} CollectedFromMap(updates: map<string, AuditUpdate>, collected: seq<AuditUpdate>,
      records: seq<Record>, keyField: string, resultField: string)
    requires IsUpdateMap(updates, records, keyField, resultField) && KeysAscend(collected)
    requires forall u :: u in collected <==> u.key in updates && updates[u.key] == u
    ensures IsCollected(collected, records, keyField, resultField)
  {
    hide Yields, LessEq;
  }

  // ------------------------------------------------------------- order of the records

  lemma BothEmpty<T>(a: seq<T>, b: seq<T>)
    requires forall u :: u in a <==> u in b
    ensures a == [] <==> b == []
  {
    if a != [] { assert a[0] in b; }
    if b != [] { assert b[0] in a; }
  }

  /** Keys that ascend leave only one order for the same updates. */
  lemma {:induction false} AscendingUnique(a: seq<AuditUpdate>, b: seq<AuditUpdate>)
    requires KeysAscend(a) && KeysAscend(b) && forall u :: u in a <==> u in b
    ensures a == b
  {
    hide LessEq;
    BothEmpty(a, b);
    if a != [] {
      FirstIsShared(a, b);
      RestAscends(a);
      RestAscends(b);
      AscendingUnique(a[1..], b[1..]);
    }
  }

  lemma {:induction false} FirstIsShared(a: seq<AuditUpdate>, b: seq<AuditUpdate>)
    requires a != [] && KeysAscend(a) && KeysAscend(b) && forall u :: u in a <==> u in b
    ensures b != [] && a[0] == b[0]
  {
    hide LessEq;
    assert a[0] in b && b[0] in a;
    var i :| 0 <= i < |b| && b[i] == a[0];
    var j :| 0 <= j < |a| && a[j] == b[0];
    if i > 0 && j > 0 {
      LessEqAntisymmetric(a[0].key, b[0].key);
    }
  }

  lemma {:induction false} RestAscends(a: seq<AuditUpdate>)
    requires a != [] && KeysAscend(a)
    ensures KeysAscend(a[1..]) && a == [a[0]] + a[1..]
    ensures forall u :: u in a[1..] <==> u in a && u != a[0]
  {
    hide LessEq;
    assert a == [a[0]] + a[1..];
    forall u | u in a[1..] ensures u != a[0] {
      var i :| 0 <= i < |a| - 1 && a[1..][i] == u;
      assert a[i + 1] == u;
    }
  }

  lemma {:induction false} FailureCarriesOver(a: seq<Record>, b: seq<Record>, keyField: string, resultField: string)
    requires (forall x :: x in a ==> x in b) && MustFail(a, keyField, resultField)
    ensures MustFail(b, keyField, resultField)
  {
    hide IsIllegal, Disagree;
    if i :| 0 <= i < |a| && IsIllegal(a[i], keyField, resultField) {
      assert a[i] in b;
      var k :| 0 <= k < |b| && b[k] == a[i];
    } else {
      var i, j :| 0 <= i < |a| && 0 <= j < |a| && Disagree(a[i], a[j], keyField, resultField);
      assert a[i] in b && a[j] in b;
      var k :| 0 <= k < |b| && b[k] == a[i];
      var l :| 0 <= l < |b| && b[l] == a[j];
      assert Disagree(b[k], b[l], keyField, resultField);
    }
  }

  /** Listing the same records in another order, or some of them twice, fails in the
      same cases. */
  lemma {:induction false} FailureOrderDoesNotMatter(a: seq<Record>, b: seq<Record>, keyField: string,
      resultField: string)
    requires forall x :: x in a <==> x in b
    ensures MustFail(a, keyField, resultField) <==> MustFail(b, keyField, resultField)
  {
    hide MustFail;
    if MustFail(a, keyField, resultField) { FailureCarriesOver(a, b, keyField, resultField); }
    if MustFail(b, keyField, resultField) { FailureCarriesOver(b, a, keyField, resultField); }
  }

  /** And when it succeeds, it returns the same updates. */
  lemma {:induction false} RecordOrderDoesNotMatter(a: seq<Record>, b: seq<Record>, keyField: string,
      resultField: string,
      r: seq<AuditUpdate>, t: seq<AuditUpdate>)
    requires forall x :: x in a <==> x in b
    requires IsCollected(r, a, keyField, resultField) && IsCollected(t, b, keyField, resultField)
    ensures r == t
  {
    hide Yields, KeysAscend;
    forall u | u in r ensures u in t {
      var i :| 0 <= i < |a| && Yields(a[i], keyField, resultField, u);
      assert a[i] in b;
      var j :| 0 <= j < |b| && b[j] == a[i];
    }
    forall u | u in t ensures u in r {
      var j :| 0 <= j < |b| && Yields(b[j], keyField, resultField, u);
      assert b[j] in a;
      var i :| 0 <= i < |a| && a[i] == b[j];
    }
    AscendingUnique(r, t);
  }
}
