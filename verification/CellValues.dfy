/** Cell values of the table sync (src/pipeline/sync.rs): plain text, business
    keys, the comparison form, field rules and write values. */
module CellValues {
  import opened Wrappers
  import opened Text
  import opened Numbers
  import opened Json

  // ------------------------------------------------------- plain text and keys

  function NonEmpty(s: string): Option<string> {
    if s == [] then None else Some(s)
  }

  /** `value_to_plain_string` */
  function PlainString(v: Value): Option<string>
    decreases v
  {
    match v
    case Null => None
    case Str(s) => NonEmpty(CleanText(s))
    case Num(n) => Some(NumberText(n))
    case Bool(b) => Some(BoolText(b))
    case Arr(items) => NonEmpty(CleanText(PlainParts(items)))
    case Obj(fields) =>
      if GetStr(fields, "text").Some? then Some(CleanText(GetStr(fields, "text").value))
      else if GetStr(fields, "link").Some? then Some(CleanText(GetStr(fields, "link").value))
      else if GetStr(fields, "name").Some? then Some(CleanText(GetStr(fields, "name").value))
      else if "value" in fields then PlainString(fields["value"])
      else None
  }

  function PlainParts(items: seq<Value>): string
    decreases items
  {
    if items == [] then []
    else
      var rest := PlainParts(items[1..]);
      match PlainString(items[0])
      case Some(part) => part + rest
      case None => rest
  }

  /** `value_to_key_string` */
  function KeyString(v: Value): Option<string> {
    match PlainString(v)
    case Some(s) => NonEmpty(KeyText(s))
    case None => None
  }

  lemma UnspacedTextIsClean(s: string)
    requires HasNoWhitespace(s)
    ensures IsClean(s) && CleanText(s) == s
  {
    CleanLeavesCleanText(s);
  }

  lemma PlainObjectIsClean(fields: Fields)
    ensures GetStr(fields, "text").Some? ==> IsClean(CleanText(GetStr(fields, "text").value))
    ensures GetStr(fields, "link").Some? ==> IsClean(CleanText(GetStr(fields, "link").value))
    ensures GetStr(fields, "name").Some? ==> IsClean(CleanText(GetStr(fields, "name").value))
  {
    if GetStr(fields, "text").Some? { CleanTextIsClean(GetStr(fields, "text").value); }
    if GetStr(fields, "link").Some? { CleanTextIsClean(GetStr(fields, "link").value); }
    if GetStr(fields, "name").Some? { CleanTextIsClean(GetStr(fields, "name").value); }
  }

  /** Whatever the cell's shape, its plain text is already cleaned. */
  lemma {:induction false} PlainStringIsClean(v: Value)
    ensures PlainString(v).Some? ==> IsClean(PlainString(v).value)
    decreases v
  {
    match v
    case Null =>
    case Str(s) => CleanTextIsClean(s);
    case Num(n) => UnspacedTextIsClean(NumberText(n));
    case Bool(b) => UnspacedTextIsClean(BoolText(b));
    case Arr(items) => CleanTextIsClean(PlainParts(items));
    case Obj(fields) =>
      PlainObjectIsClean(fields);
      if "value" in fields { PlainStringIsClean(fields["value"]); }
  }

  /** A key has no whitespace left, and the key of a cell holding just that key
      is the key itself. */
  lemma KeyStringStable(v: Value)
    requires KeyString(v).Some?
    ensures HasNoWhitespace(KeyString(v).value)
    ensures KeyString(Str(KeyString(v).value)) == KeyString(v)
    ensures CleanText(KeyString(v).value) == KeyString(v).value
  {
    PlainStringIsClean(v);
    KeyTextOfClean(PlainString(v).value);
  }

  /** Of the texts that an object may hold, the first in this order is read, whatever else
      it holds; without any, what it holds under `value` is read. */
  lemma {:induction false} ObjectReadsAs(fields: Fields, names: seq<string>, n: nat)
    requires names == ["text", "link", "name"] && n <= 3
    requires forall k :: 0 <= k < n ==> GetStr(fields, names[k]).None?
    ensures n < 3 && GetStr(fields, names[n]).Some? ==>
              PlainString(Obj(fields)) == Some(CleanText(GetStr(fields, names[n]).value))
    ensures n == 3 ==>
              PlainString(Obj(fields)) == if "value" in fields then PlainString(fields["value"]) else None
  {
    hide CleanText;
    assert n > 0 ==> GetStr(fields, names[0]).None?;
    assert n > 1 ==> GetStr(fields, names[1]).None?;
    assert n > 2 ==> GetStr(fields, names[2]).None?;
  }

  /** The key in a text cell is its text without the whitespace. */
  lemma {:induction false} KeyOfText(s: string)
    ensures KeyString(Str(s)) == NonEmpty(NonBlanks(s))
  {
    hide CleanText, KeyText;
    KeyTextOfText(s);
    CleanTextKeepsCharacters(s);
    CleanLeavesCleanText([]);
  }

  // ------------------------------------------------------------ comparison form

  function DropCommas(s: string): (r: string)
    ensures |r| <= |s|
  {
    if s == [] then []
    else if s[0] == ',' then DropCommas(s[1..])
    else [s[0]] + DropCommas(s[1..])
  }

  lemma {:induction false} DropCommasByChar(s: string, c: char)
    ensures DropCommas([]) == []
    ensures DropCommas(s + [c]) == if c == ',' then DropCommas(s) else DropCommas(s) + [c]
  {
    if s == [] {
      assert s + [c] == [c] && [c][1..] == [];
    } else {
      assert (s + [c])[1..] == s[1..] + [c];
      DropCommasByChar(s[1..], c);
    }
  }

  /** `parse_string_to_number_value` */
  function ParseNumber(h: Host, s: string): Option<Value> {
    var t := DropCommas(Trim(s));
    if t == [] then None
    else
      match ParseInt(t, I64_MIN, I64_MAX)
      case Some(i) => Some(Num(Int(i)))
      case None =>
        match h.parseFloat(t)
        case Some(f) => Some(Num(Float(f)))
        case None => None
  }

  /** The branch that strings and arrays share in `normalize_for_compare`. */
  function NormalText(h: Host, cleaned: string): Value {
    if cleaned == [] then Null
    else
      match ParseNumber(h, cleaned)
      case Some(number) => number
      case None => Str(cleaned)
  }

  /** `normalize_for_compare` */
  function NormalizeForCompare(h: Host, v: Value): Value
    decreases v
  {
    match v
    case Null => v
    case Bool(_) => v
    case Num(_) => v
    case Str(s) => NormalText(h, CleanText(s))
    case Arr(items) => NormalText(h, CleanText(PlainParts(items)))
    case Obj(fields) =>
      if GetStr(fields, "link").Some? then Str(CleanText(GetStr(fields, "link").value))
      else if GetStr(fields, "text").Some? then Str(CleanText(GetStr(fields, "text").value))
      else if "value" in fields then NormalizeForCompare(h, fields["value"])
      else v
  }

  /** `semantic_equal` */
  predicate SemanticEqual(h: Host, a: Value, b: Value) {
    NormalizeForCompare(h, a) == NormalizeForCompare(h, b)
  }

  /** The comparison takes the text for this integer. */
  predicate ReadsAsInteger(s: string, i: int) {
    ParseInt(DropCommas(CleanText(s)), I64_MIN, I64_MAX) == Some(i)
  }

  /** It takes the text for this float. */
  predicate ReadsAsFloat(h: Host, s: string, f: FloatText) {
    var t := DropCommas(CleanText(s));
    t != [] && ParseInt(t, I64_MIN, I64_MAX).None? && h.parseFloat(t) == Some(f)
  }

  ghost predicate ReadsAsNumber(h: Host, s: string) {
    (exists i :: ReadsAsInteger(s, i)) || (exists f: FloatText :: ReadsAsFloat(h, s, f))
  }

  lemma {:induction false} TextNormal(h: Host, s: string)
    ensures forall i :: ReadsAsInteger(s, i) ==> NormalizeForCompare(h, Str(s)) == Num(Int(i))
    ensures forall f: FloatText :: ReadsAsFloat(h, s, f) ==> NormalizeForCompare(h, Str(s)) == Num(Float(f))
    ensures !ReadsAsNumber(h, s) ==>
              NormalizeForCompare(h, Str(s)) == if CleanText(s) == [] then Null else Str(CleanText(s))
  {
    hide CleanText, ParseInt, Trim, IsClean;
    CleanTextIsClean(s);
    CleanEnds(CleanText(s));
    TrimFixedPoint(CleanText(s));
    NothingIsNoInteger();
    var t := DropCommas(CleanText(s));
    match ParseInt(t, I64_MIN, I64_MAX)
    case Some(i) => assert ReadsAsInteger(s, i);
    case None =>
      if t != [] && h.parseFloat(t).Some? { assert ReadsAsFloat(h, s, h.parseFloat(t).value); }
  }

  lemma NothingIsNoInteger()
    ensures ParseInt([], I64_MIN, I64_MAX).None? && DropCommas([]) == []
  {
  }

  /** When two texts are equal for the comparison: both are the same integer, or both the
      same float, or neither is a number and they are the same text when cleaned. */
  lemma {:induction false} TextsCompareExactly(h: Host, s: string, t: string)
    ensures SemanticEqual(h, Str(s), Str(t))
       <==> || (exists i :: ReadsAsInteger(s, i) && ReadsAsInteger(t, i))
            || (exists f: FloatText :: ReadsAsFloat(h, s, f) && ReadsAsFloat(h, t, f))
            || (!ReadsAsNumber(h, s) && !ReadsAsNumber(h, t) && CleanText(s) == CleanText(t))
  {
    hide NormalizeForCompare, CleanText, ReadsAsInteger, ReadsAsFloat;
    TextNormal(h, s);
    TextNormal(h, t);
  }

  /** When a value that is no text equals a text: a number when the text is read as that
      number, nothing when the text is blank, a truth value never. */
  lemma {:induction false} ValueEqualsText(h: Host, s: string, i: int, f: FloatText, b: bool)
    ensures SemanticEqual(h, Num(Int(i)), Str(s)) <==> ReadsAsInteger(s, i)
    ensures SemanticEqual(h, Num(Float(f)), Str(s)) <==> ReadsAsFloat(h, s, f)
    ensures SemanticEqual(h, Null, Str(s)) <==> !ReadsAsNumber(h, s) && CleanText(s) == []
    ensures !SemanticEqual(h, Bool(b), Str(s))
  {
    hide CleanText, NormalText, ReadsAsInteger, ReadsAsFloat;
    TextNormal(h, s);
  }

  /** An object is compared by the first of these texts that it holds, as cleaned text and
      never as a number; without any, as what it holds under `value`, or else as it is. */
  lemma {:induction false} ObjectComparesAs(h: Host, fields: Fields, names: seq<string>, n: nat, v: Value)
    requires names == ["link", "text"] && n <= 2
    requires forall k :: 0 <= k < n ==> GetStr(fields, names[k]).None?
    ensures n < 2 && GetStr(fields, names[n]).Some? ==>
              NormalizeForCompare(h, Obj(fields)) == Str(CleanText(GetStr(fields, names[n]).value))
    ensures n == 2 && "value" in fields ==> (SemanticEqual(h, Obj(fields), v) <==> SemanticEqual(h, fields["value"], v))
    ensures n == 2 && "value" !in fields ==> NormalizeForCompare(h, Obj(fields)) == Obj(fields)
  {
    hide CleanText, NormalText, PlainParts;
    assert n > 0 ==> GetStr(fields, names[0]).None?;
    assert n > 1 ==> GetStr(fields, names[1]).None?;
  }

  /** A text segment as Feishu returns it for a text cell. */
  function TextSegment(s: string): Value {
    Obj(map["text" := Str(s), "type" := Str("text")])
  }

  lemma PlainPartsOfOne(v: Value)
    ensures PlainParts([v]) == if PlainString(v).Some? then PlainString(v).value else []
  {
    assert [v][1..] == [];
    assert PlainParts([v][1..]) == [];
  }

  /** A text written as a string and read back as one segment is the same text
      for the comparison and as plain text. */
  lemma OneSegmentReadsBack(h: Host, s: string)
    ensures SemanticEqual(h, Arr([TextSegment(s)]), Str(s))
    ensures PlainString(Arr([TextSegment(s)])) == PlainString(Str(s))
  {
    ArrayActsAsItsText(h, [TextSegment(s)]);
    OneSegmentPlain(s);
    CleanTextFixedPoints(s);
  }

  /** An array is compared, and read, as the joined text of its items. */
  lemma {:induction false} ArrayActsAsItsText(h: Host, items: seq<Value>)
    ensures SemanticEqual(h, Arr(items), Str(PlainParts(items)))
    ensures PlainString(Arr(items)) == PlainString(Str(PlainParts(items)))
  {
    hide CleanText, NormalText, PlainParts;
  }

  lemma OneSegmentPlain(s: string)
    ensures PlainParts([TextSegment(s)]) == CleanText(s)
  {
    PlainPartsOfOne(TextSegment(s));
    assert GetStr(TextSegment(s).fields, "text") == Some(s);
  }

  function Segments(parts: seq<string>): (items: seq<Value>)
    ensures |items| == |parts|
  {
    if parts == [] then [] else [TextSegment(parts[0])] + Segments(parts[1..])
  }

  function Concat(parts: seq<string>): string {
    if parts == [] then [] else parts[0] + Concat(parts[1..])
  }

  lemma {:induction false} SegmentsPlain(parts: seq<string>)
    requires forall i :: 0 <= i < |parts| ==> CleanText(parts[i]) == parts[i]
    ensures PlainParts(Segments(parts)) == Concat(parts)
  {
    hide CleanText;
    if parts != [] {
      SegmentsPlain(parts[1..]);
      assert Segments(parts)[1..] == Segments(parts[1..]);
      assert GetStr(TextSegment(parts[0]).fields, "text") == Some(parts[0]);
    }
  }

  /** Whitespace at a border does not matter to the key: the segments of a text carry its
      key wherever they were cut. */
  lemma {:induction false} KeySurvivesSegments(parts: seq<string>)
    ensures KeyString(Arr(Segments(parts))) == KeyString(Str(Concat(parts)))
  {
    hide CleanText, NonBlanks, PlainParts, KeyString;
    SegmentsKeepCharacters(parts);
    KeyOfArray(Segments(parts));
    KeyOfText(PlainParts(Segments(parts)));
    KeyOfText(Concat(parts));
  }

  lemma {:induction false} KeyOfArray(items: seq<Value>)
    ensures KeyString(Arr(items)) == KeyString(Str(PlainParts(items)))
  {
    hide CleanText, PlainParts, KeyText;
  }

  lemma {:induction false} SegmentsKeepCharacters(parts: seq<string>)
    ensures NonBlanks(PlainParts(Segments(parts))) == NonBlanks(Concat(parts))
  {
    hide CleanText, NonBlanks;
    if parts != [] {
      var rest := PlainParts(Segments(parts[1..]));
      SegmentsKeepCharacters(parts[1..]);
      assert Segments(parts)[1..] == Segments(parts[1..]);
      assert GetStr(TextSegment(parts[0]).fields, "text") == Some(parts[0]);
      CleanTextKeepsCharacters(parts[0]);
      NonBlanksInParts(CleanText(parts[0]), rest);
      NonBlanksInParts(parts[0], Concat(parts[1..]));
    }
  }

  /** A text split into segments that are clean one by one still compares equal
      to the whole text, and carries the same key. */
  lemma CleanSegmentsReadBack(h: Host, parts: seq<string>)
    requires forall i :: 0 <= i < |parts| ==> CleanText(parts[i]) == parts[i]
    ensures SemanticEqual(h, Arr(Segments(parts)), Str(Concat(parts)))
    ensures PlainString(Arr(Segments(parts))) == PlainString(Str(Concat(parts)))
  {
    ArrayActsAsItsText(h, Segments(parts));
    SegmentsPlain(parts);
  }

  lemma PlainPartsOfTwo(a: string, b: string)
    ensures PlainParts([TextSegment(a), TextSegment(b)]) == CleanText(a) + CleanText(b)
  {
    assert [TextSegment(a), TextSegment(b)][1..] == [TextSegment(b)];
    OneSegmentPlain(b);
    assert GetStr(TextSegment(a).fields, "text") == Some(a);
  }

  /** Segments are cleaned one by one before they are joined, so a blank at a
      segment border is lost: a text cut after a blank does not compare equal to
      the text itself. */
  lemma BlankAtBorderDiffers(h: Host, a: string, b: string)
    requires a != [] && b != [] && IsClean(a + b) && IsClean(a + " " + b)
    requires ParseNumber(h, a + b).None? && ParseNumber(h, a + " " + b).None?
    ensures !SemanticEqual(h, Arr([TextSegment(a + " "), TextSegment(b)]), Str(a + " " + b))
  {
    HalvesAreClean(a, b);
    var parts := [TextSegment(a + " "), TextSegment(b)];
    assert PlainParts(parts) == a + b by {
      PlainPartsOfTwo(a + " ", b);
      TrailingBlankIsCleaned(a);
      CleanLeavesCleanText(b);
    }
    ArrayActsAsItsText(h, parts);
    CleanNonNumberNormal(h, a + b);
    CleanNonNumberNormal(h, a + " " + b);
  }

  lemma CleanNonNumberNormal(h: Host, s: string)
    requires IsClean(s) && s != [] && ParseNumber(h, s).None?
    ensures NormalizeForCompare(h, Str(s)) == Str(s)
  {
    CleanLeavesCleanText(s);
  }

  lemma HalvesAreClean(a: string, b: string)
    requires a != [] && b != [] && IsClean(a + " " + b)
    ensures IsClean(a) && IsClean(b)
  {
    var s := a + " " + b;
    assert s[|a|] == ' ';
    assert forall i :: 0 <= i < |a| ==> a[i] == s[i];
    assert forall i :: 0 <= i < |b| ==> b[i] == s[|a| + 1 + i];
    forall i | 0 < i < |b| && IsWhitespace(b[i]) ensures b[i] == ' ' && !IsWhitespace(b[i - 1]) {
      assert s[|a| + 1 + i] == b[i] && s[|a| + i] == b[i - 1];
    }
    assert b[0] == s[|a| + 1] && IsWhitespace(s[|a|]);
  }

  lemma TrailingBlankIsCleaned(a: string)
    requires IsClean(a)
    ensures CleanText(a + " ") == a
  {
    CleanLeavesCleanText(a);
    TrimFixedPoint(a);
    TrimDropsEnds(a, ' ');
  }

  /** The trap between a text object and the same text as a string: they compare
      equal exactly when the text is not blank and is not a number. */
  lemma TextObjectEqualsString(h: Host, s: string)
    ensures SemanticEqual(h, TextSegment(s), Str(s))
       <==> CleanText(s) != [] && ParseNumber(h, CleanText(s)).None?
  {
    TextSegmentNormal(h, s);
    var c := CleanText(s);
    assert NormalizeForCompare(h, Str(s)) == NormalText(h, c);
  }

  lemma {:induction false} TextSegmentNormal(h: Host, s: string)
    ensures NormalizeForCompare(h, TextSegment(s)) == Str(CleanText(s))
  {
    hide CleanText;
    assert GetStr(TextSegment(s).fields, "text") == Some(s);
  }

  lemma {:induction false} DropCommasOfPlain(s: string)
    requires forall i :: 0 <= i < |s| ==> s[i] != ','
    ensures DropCommas(s) == s
  {
    if s != [] { DropCommasOfPlain(s[1..]); }
  }

  /** An integer and its text, with or without thousands separators, are equal for
      the comparison. */
  lemma {:induction false} IntegerEqualsItsText(h: Host, i: int, s: string)
    requires I64_MIN <= i <= I64_MAX
    requires HasNoWhitespace(s) && DropCommas(s) == IntText(i)
    ensures SemanticEqual(h, Num(Int(i)), Str(s))
  {
    hide IntText, ParseInt, CleanText;
    UnspacedTextIsClean(s);
    TrimFixedPoint(s);
    IntTextRoundTrip(i, I64_MIN, I64_MAX);
    assert ParseNumber(h, s) == Some(Num(Int(i)));
  }

  /** Link cells are compared by their links alone, but read as their texts. */
  lemma {:induction false} LinkCells(h: Host, a: Fields, b: Fields)
    requires GetStr(a, "link").Some? && GetStr(b, "link").Some?
    ensures SemanticEqual(h, Obj(a), Obj(b))
            <==> CleanText(GetStr(a, "link").value) == CleanText(GetStr(b, "link").value)
    ensures PlainString(Obj(a)) == Some(CleanText(GetStr(a, if GetStr(a, "text").Some? then "text" else "link").value))
  {
    hide CleanText;
  }

  /** The value whose comparison form a value has: what envelopes `{ value }` lead to. */
  function Reached(v: Value): Value
    decreases v
  {
    if v.Obj? && GetStr(v.fields, "link").None? && GetStr(v.fields, "text").None? && "value" in v.fields
    then Reached(v.fields["value"]) else v
  }

  /** The text a text or link cell is compared by. */
  function CellText(v: Value): Option<string> {
    if !v.Obj? then None
    else if GetStr(v.fields, "link").Some? then GetStr(v.fields, "link")
    else GetStr(v.fields, "text")
  }

  predicate HasBlankOrNumber(h: Host, v: Value) {
    CellText(v).Some? && (CleanText(CellText(v).value) == [] || ParseNumber(h, CleanText(CellText(v).value)).Some?)
  }

  /** Comparison forms are their own comparison form, exactly unless the value leads to a
      text or link cell whose text is blank or a number. */
  lemma {:induction false} NormalFormsSettle(h: Host, v: Value)
    ensures var n := NormalizeForCompare(h, v);
            NormalizeForCompare(h, n) == n <==> !HasBlankOrNumber(h, Reached(v))
    decreases v
  {
    hide ParseNumber, CleanText;
    match v
    case Str(s) => TextFormSettles(h, s);
    case Arr(items) => TextFormSettles(h, PlainParts(items));
    case Obj(fields) =>
      if CellText(v).Some? {
        CleanTextFixedPoints(CellText(v).value);
        NumbersAreNotTexts(h, CleanText(CellText(v).value));
      } else if "value" in fields {
        NormalFormsSettle(h, fields["value"]);
      }
    case _ =>
  }

  lemma {:induction false} TextFormSettles(h: Host, s: string)
    ensures NormalizeForCompare(h, NormalText(h, CleanText(s))) == NormalText(h, CleanText(s))
  {
    hide ParseNumber, CleanText;
    CleanTextFixedPoints(s);
    NumbersAreNotTexts(h, CleanText(s));
  }

  /** Such a cell is the text segment of a number. */
  lemma {:induction false} NumberSegment(h: Host, i: int)
    requires I64_MIN <= i <= I64_MAX
    ensures NormalizeForCompare(h, TextSegment(IntText(i))) == Str(IntText(i))
    ensures NormalizeForCompare(h, Str(IntText(i))) == Num(Int(i))
  {
    hide IntText, CleanText, ParseInt, NormalText, TextSegment;
    UnspacedTextIsClean(IntText(i));
    IntTextHasNoComma(i);
    DropCommasOfPlain(IntText(i));
    IntegerEqualsItsText(h, i, IntText(i));
    TextSegmentNormal(h, IntText(i));
  }

  lemma IntTextHasNoComma(i: int)
    ensures forall k :: 0 <= k < |IntText(i)| ==> IntText(i)[k] != ','
  {
  }

  lemma NumbersAreNotTexts(h: Host, s: string)
    ensures ParseNumber(h, s).Some? ==> ParseNumber(h, s).value.Num?
  {
  }

  // ------------------------------------------------------------------- rules

  datatype FieldValueKind = Passthrough | Text | Number | TimestampMillis | Url

  /** The rule sets hold normalised names. */
  datatype FieldValueRules = FieldValueRules(
    skipFields: set<string>,
    textFields: set<string>,
    numberFields: set<string>,
    timestampFields: set<string>,
    urlFields: set<string>)
  {
    predicate ShouldSkip(name: string) {
      NormalizeFieldName(name) in skipFields
    }

    function ValueKind(name: string): FieldValueKind {
      var n := NormalizeFieldName(name);
      if n in urlFields then Url
      else if n in timestampFields then TimestampMillis
      else if n in numberFields then Number
      else if n in textFields then Text
      else Passthrough
    }
  }

  /** How a column is written depends on its name only up to spelling; a column in several
      lists is a link column, else a date column, else a number column. */
  lemma {:induction false} KindsExactly(rules: FieldValueRules, name: string, spelling: string)
    ensures var n, kind := NormalizeFieldName(name), rules.ValueKind(name);
            && (kind.Url? <==> n in rules.urlFields)
            && (kind.TimestampMillis? <==> n in rules.timestampFields - rules.urlFields)
            && (kind.Number? <==> n in rules.numberFields - rules.timestampFields - rules.urlFields)
            && (kind.Text? <==>
                 n in rules.textFields - rules.numberFields - rules.timestampFields - rules.urlFields)
    ensures NormalizeFieldName(name) == NormalizeFieldName(spelling) ==>
              rules.ValueKind(name) == rules.ValueKind(spelling) && rules.ShouldSkip(name) == rules.ShouldSkip(spelling)
  {
    hide NormalizeFieldName;
  }

  /** `normalize_cell_value` */
  function NormalizeCell(v: Value): Value {
    if v.Str? then
      var s := CleanText(v.s);
      if s == [] then Null else Str(s)
    else v
  }

  function ToNumberValue(h: Host, v: Value): Value {
    match v
    case Str(s) =>
      var t := DropCommas(Trim(s));
      if t == [] then Null
      else
        (match ParseNumber(h, t)
         case Some(number) => number
         case None => Null)
    case Bool(b) => Num(Int(if b then 1 else 0))
    case _ => v
  }

  function ToTimestampMillis(h: Host, v: Value): Value {
    match v
    case Str(s) =>
      var t := CleanText(s);
      if t == [] then Null
      else
        (match ParseInt(t, I64_MIN, I64_MAX)
         case Some(i) => Num(Int(i))
         case None =>
           match h.parseDate(t)
           case Some(millis) => Num(Int(millis))
           case None => Null)
    case _ => v
  }

  /** `FieldValueRules::to_bitable_write_value` */
  function ToWriteValue(h: Host, rules: FieldValueRules, name: string, raw: Value): Value {
    var v := NormalizeCell(raw);
    if v.Null? then Null
    else
      match rules.ValueKind(name)
      case Passthrough => v
      case Text => (match PlainString(v) case Some(s) => Str(s) case None => Null)
      case Number => ToNumberValue(h, v)
      case TimestampMillis => ToTimestampMillis(h, v)
      case Url =>
        match PlainString(v)
        case Some(url) => Obj(map["text" := Str(url), "link" := Str(url)])
        case None => Null
  }

  /** Preparing a prepared value again changes nothing, exactly unless the column is a
      text column and the cell an object whose text is blank. */
  lemma {:induction false} WriteValueStable(h: Host, rules: FieldValueRules, name: string, raw: Value)
    ensures var w := ToWriteValue(h, rules, name, raw);
            ToWriteValue(h, rules, name, w) == w <==> !(rules.ValueKind(name).Text? && PlainString(raw) == Some([]))
  {
    hide CleanText, IsClean, NormalizeFieldName;
    var v := NormalizeCell(raw);
    if raw.Str? { CleanTextFixedPoints(raw.s); }
    if rules.ValueKind(name).Text? || rules.ValueKind(name).Url? {
      PlainStringIsClean(v);
      if PlainString(v).Some? {
        CleanLeavesCleanText(PlainString(v).value);
      }
    }
    CleanLeavesCleanText([]);
  }

  /** Such a cell is a segment of one blank: a text column makes an empty text of it, and
      of that nothing. */
  lemma {:induction false} BlankSegment(h: Host, rules: FieldValueRules, name: string)
    requires rules.ValueKind(name).Text?
    ensures PlainString(TextSegment(" ")) == Some([])
    ensures ToWriteValue(h, rules, name, TextSegment(" ")) == Str([]) && ToWriteValue(h, rules, name, Str([])) == Null
  {
    hide NormalizeFieldName;
    assert " "[1..] == [];
    assert TrimStart([]) == [] && TrimStart(" ") == [];
    assert Trim(" ") == [] && BreaksToSpaces([]) == [] && SplitWhitespace([]) == [];
    CleanLeavesCleanText([]);
  }

  /** What is written for a text of a sheet cell: nothing for a blank; in a text column
      the cleaned text, in a link column twice; in a date column an integer. */
  lemma {:induction false} WrittenText(h: Host, rules: FieldValueRules, name: string, s: string)
    ensures var w, kind := ToWriteValue(h, rules, name, Str(s)), rules.ValueKind(name);
            && (CleanText(s) == [] ==> w == Null)
            && (CleanText(s) != [] ==>
                  && (kind.Text? || kind.Passthrough? ==> w == Str(CleanText(s)))
                  && (kind.Url? ==>
                       w.Obj? && GetStr(w.fields, "link") == GetStr(w.fields, "text") == Some(CleanText(s)))
                  && (kind.TimestampMillis? ==> w == Null || (w.Num? && w.n.Int?)))
  {
    hide NormalizeFieldName, IsClean, ParseInt, CleanText, Trim;
    CleanTextFixedPoints(s);
  }

  /** The text that a number column reads. */
  function Numeral(s: string): string {
    Trim(DropCommas(CleanText(s)))
  }

  /** Which number a number column writes for a text: the integer, or else the float, that
      is read without commas and outer whitespace; otherwise nothing. */
  lemma {:induction false} WrittenNumber(h: Host, rules: FieldValueRules, name: string, s: string)
    requires rules.ValueKind(name).Number?
    ensures var w, t := ToWriteValue(h, rules, name, Str(s)), Numeral(s);
            && (forall i :: w == Num(Int(i)) <==> ParseInt(t, I64_MIN, I64_MAX) == Some(i))
            && (forall f: FloatText :: w == Num(Float(f)) <==>
                 t != [] && ParseInt(t, I64_MIN, I64_MAX).None? && h.parseFloat(t) == Some(f))
            && (w.Num? || w == Null)
  {
    hide NormalizeFieldName, IsClean, ParseInt, CleanText, Trim, DropCommas;
    CleanTextFixedPoints(s);
    CleanTextIsClean(s);
    CleanEnds(CleanText(s));
    TrimFixedPoint(CleanText(s));
    DropCommasTwice(CleanText(s));
    DropCommasOfTrimmed(DropCommas(CleanText(s)));
    NothingIsNoInteger();
    TrimFixedPoint([]);
  }

  lemma {:induction false} DropCommasOfTrimmed(s: string)
    requires DropCommas(s) == s
    ensures DropCommas(Trim(s)) == Trim(s)
  {
    CommasOfFixed(s);
    TrimIsPart(s);
    forall i | 0 <= i < |Trim(s)| ensures Trim(s)[i] != ',' {
      assert Trim(s)[i] in Trim(s);
    }
    DropCommasOfPlain(Trim(s));
  }

  lemma {:induction false} CommasOfFixed(s: string)
    requires DropCommas(s) == s
    ensures forall i :: 0 <= i < |s| ==> s[i] != ','
  {
    if s != [] {
      assert s[0] != ',';
      assert DropCommas(s[1..]) == s[1..];
      CommasOfFixed(s[1..]);
    }
  }

  lemma TrimIsPart(s: string)
    ensures forall c :: c in Trim(s) ==> c in s
  {
    TrimStartIsPart(s);
  }

  lemma TrimStartIsPart(s: string)
    ensures forall c :: c in TrimStart(s) ==> c in s
  {
  }

  /** Which time a date column writes for a text: the integer, or else the date, that is
      read in it; otherwise nothing. */
  lemma {:induction false} WrittenDate(h: Host, rules: FieldValueRules, name: string, s: string)
    requires rules.ValueKind(name).TimestampMillis?
    ensures var w, t := ToWriteValue(h, rules, name, Str(s)), CleanText(s);
            && (forall i :: w == Num(Int(i)) <==>
                 ParseInt(t, I64_MIN, I64_MAX) == Some(i)
                 || (t != [] && ParseInt(t, I64_MIN, I64_MAX).None? && h.parseDate(t) == Some(i)))
            && ((w.Num? && w.n.Int?) || w == Null)
  {
    hide NormalizeFieldName, IsClean, ParseInt, CleanText;
    CleanTextFixedPoints(s);
    NothingIsNoInteger();
  }

  /** What is written for a cell that is no text: link and text columns take its plain text;
      number columns take a truth value as 1 or 0; otherwise it stays as it is. */
  lemma {:induction false} WrittenOther(h: Host, rules: FieldValueRules, name: string, v: Value)
    requires !v.Str? && !v.Null?
    ensures var w, kind := ToWriteValue(h, rules, name, v), rules.ValueKind(name);
            && (kind.Text? || kind.Url? ==> (w == Null <==> PlainString(v).None?))
            && (kind.Text? && w != Null ==> Some(w) == Some(Str(PlainString(v).value)))
            && (kind.Url? && w != Null ==>
                 w.Obj? && GetStr(w.fields, "link") == GetStr(w.fields, "text") == PlainString(v))
            && (kind.Number? && v.Bool? ==> w == Num(Int(if v.b then 1 else 0)))
            && (kind.Passthrough? || kind.TimestampMillis? || (kind.Number? && !v.Bool?) ==> w == v)
  {
    hide NormalizeFieldName, PlainString;
  }

  /** Rust's f64 parser takes no text with whitespace at either end. */
  ghost predicate RejectsBlankEnds(h: Host) {
    forall s :: !HasCleanEnds(s) ==> h.parseFloat(s).None?
  }

  /** What the comparison takes a text for, if that is a number. */
  function ComparedNumber(h: Host, s: string): Value {
    match ParseNumber(h, CleanText(s))
    case Some(number) => number
    case None => Null
  }

  /** A number column writes what the comparison takes a text for, or nothing if it takes
      it for no number, exactly when dropping the commas leaves no blank at either end, or
      what is left without these blanks is no number anyway. */
  lemma {:induction false} WrittenNumberAgrees(h: Host, rules: FieldValueRules, name: string, s: string)
    requires rules.ValueKind(name).Number? && RejectsBlankEnds(h)
    ensures var rest := DropCommas(CleanText(s));
            ToWriteValue(h, rules, name, Str(s)) == ComparedNumber(h, s)
            <==> HasCleanEnds(rest) || ParseNumber(h, Trim(rest)).None?
  {
    hide NormalizeFieldName, IsClean, ParseInt, CleanText, Trim, DropCommas;
    var c := CleanText(s);
    var rest := DropCommas(c);
    CleanTextFixedPoints(s);
    CleanTextIsClean(s);
    CleanEnds(c);
    TrimFixedPoint(c);
    TrimFixedPoint(rest);
    TrimFixedPoint(Trim(rest));
    TrimHasCleanEnds(rest);
    DropCommasTwice(c);
    NumbersAreNotTexts(h, rest);
    assert ParseNumber(h, Trim(rest)) == ParseNumber(h, rest);
    if !HasCleanEnds(rest) {
      BlankEndsAreNoInteger(rest);
    }
  }

  lemma TrimHasCleanEnds(s: string)
    ensures HasCleanEnds(Trim(s))
  {
  }

  lemma {:induction false} BlankEndsAreNoInteger(s: string)
    requires !HasCleanEnds(s)
    ensures ParseInt(s, I64_MIN, I64_MAX).None?
  {
    if s[0] in "+-" {
      assert s[1..] != [] ==> s[1..][|s| - 2] == s[|s| - 1];
    }
  }

  /** And a number that is written equals the text for the comparison then. */
  lemma {:induction false} WrittenNumberEqualsText(h: Host, rules: FieldValueRules, name: string, s: string)
    requires rules.ValueKind(name).Number? && ToWriteValue(h, rules, name, Str(s)) == ComparedNumber(h, s) != Null
    ensures ComparedNumber(h, s).Num? && SemanticEqual(h, ToWriteValue(h, rules, name, Str(s)), Str(s))
  {
    hide NormalizeFieldName, IsClean, ParseInt, CleanText, ToWriteValue;
    NumbersAreNotTexts(h, CleanText(s));
    BlankIsNoNumber(h);
  }

  lemma BlankIsNoNumber(h: Host)
    ensures ParseNumber(h, []).None?
  {
  }

  lemma CleanEnds(s: string)
    requires IsClean(s)
    ensures HasCleanEnds(s)
  {
  }

  lemma DropCommasTwice(s: string)
    ensures DropCommas(DropCommas(s)) == DropCommas(s)
  {
  }

  /** There the two differ: the number column takes the text for a number, the
      comparison does not. */
  lemma {:induction false} CommaBeforeBlank(h: Host, rules: FieldValueRules, name: string)
    requires rules.ValueKind(name).Number? && h.parseFloat(" 5").None?
    ensures ToWriteValue(h, rules, name, Str(", 5")) == Num(Int(5))
    ensures !SemanticEqual(h, Num(Int(5)), Str(", 5"))
  {
    hide NormalizeFieldName, CleanText, ToWriteValue, NormalizeForCompare, Trim, ParseInt, DropCommas;
    CommaFive();
    WrittenNumber(h, rules, name, ", 5");
    ValueEqualsText(h, ", 5", 5, "5", true);
  }

  lemma {:induction false} CommaFive()
    ensures CleanText(", 5") == ", 5" && DropCommas(", 5") == " 5" && Trim(" 5") == "5"
    ensures ParseInt("5", I64_MIN, I64_MAX) == Some(5) && ParseInt(" 5", I64_MIN, I64_MAX).None?
  {
    hide CleanText, DropCommas, Trim, ParseInt;
    CleanLeavesCleanText(", 5");
    DropCommasByChar("", ',');
    DropCommasByChar(",", ' ');
    DropCommasByChar(", ", '5');
    assert "" + [','] == "," && "," + [' '] == ", " && ", " + ['5'] == ", 5";
    TrimDropsEnds("5", ' ');
    TrimFixedPoint("5");
    assert [' '] + "5" == " 5";
    FiveIsAnInteger();
  }

  lemma FiveIsAnInteger()
    ensures ParseInt("5", I64_MIN, I64_MAX) == Some(5) && ParseInt(" 5", I64_MIN, I64_MAX).None?
  {
    DigitsValueByDigit([], '5');
    assert !IsDigit(" 5"[0]);
    assert AreDigits("5") && !AreDigits(" 5");
  }

  /** A key written through a text column arrives unchanged. */
  lemma {:induction false} KeyWriteValue(h: Host, rules: FieldValueRules, name: string, v: Value)
    requires rules.ValueKind(name) == Text
    requires KeyString(v).Some?
    ensures ToWriteValue(h, rules, name, Str(KeyString(v).value)) == Str(KeyString(v).value)
  {
    hide NormalizeFieldName, CleanText, KeyText;
    KeyStringStable(v);
  }

  // -------------------------------------------------------------- find by name

  function Aliases(fields: Fields, name: string): set<string> {
    set n | n in fields && NormalizeFieldName(n) == NormalizeFieldName(name)
  }

  /** `find_field_value_by_name`: the first field whose normalised name fits. */
  function FindField(fields: Fields, name: string): Option<Value> {
    var aliases := Aliases(fields, name);
    if aliases == {} then None else Some(fields[Least(aliases)])
  }

  /** No two of the names are spellings of one column. */
  predicate NamesInjective(names: set<string>) {
    forall a, b :: a in names && b in names && NormalizeFieldName(a) == NormalizeFieldName(b) ==> a == b
  }

  lemma FindOnlyAlias(fields: Fields, name: string, alias: string)
    requires alias in fields && NormalizeFieldName(alias) == NormalizeFieldName(name)
    requires NamesInjective(fields.Keys)
    ensures FindField(fields, name) == Some(fields[alias])
  {
    assert alias in Aliases(fields, name);
  }
}
