/** The grammar of what the parser accepts: the parser reads every written form as what it means, and reads
    nothing else; and cJSON_Minify takes the comments and blanks out of a form and leaves its meaning. */
module JsonGrammar {
  import opened Bytes
  import opened JsonText
  import opened JsonRoundTrip
  import opened JsonMinify
  import opened JsonTokens

  // ---------- forms ----------

  /** A value as it is written, with all that stands between its tokens. A literal that is not closed ends with
      the text. The gap of a list or record is that of an empty one. */
  datatype Form =
    | NullWord
    | FalseWord
    | TrueWord
    | Numeric(x: Numeral)
    | Quoted(chars: seq<Char>, closed: bool)
    | List(gap: seq<Filler>, slots: seq<Slot>)
    | Record(gap: seq<Filler>, fields: seq<Field>)

  datatype Slot = Slot(before: seq<Filler>, form: Form, after: seq<Filler>)

  datatype Field = Field(before: seq<Filler>, name: seq<Char>, beforeColon: seq<Filler>, afterColon: seq<Filler>,
                         form: Form, after: seq<Filler>)

  predicate IsShut(f: Form) {
    f.Quoted? ==> f.closed
  }

  predicate IsForm(f: Form) {
    match f
    case Numeric(x) => IsNumeral(x)
    case Quoted(chars, _) => IsLiteral(chars)
    case List(gap, slots) =>
      IsGap(gap) && (slots != [] ==> gap == []) && forall i :: 0 <= i < |slots| ==> IsSlot(slots[i])
    case Record(gap, fields) =>
      IsGap(gap) && (fields != [] ==> gap == []) && forall i :: 0 <= i < |fields| ==> IsField(fields[i])
    case _ => true
  }

  predicate IsSlot(s: Slot) {
    IsGap(s.before) && IsForm(s.form) && IsShut(s.form) && IsGap(s.after)
  }

  predicate IsField(d: Field) {
    IsGap(d.before) && IsLiteral(d.name) && IsGap(d.beforeColon) && IsGap(d.afterColon)
    && IsForm(d.form) && IsShut(d.form) && IsGap(d.after)
  }

  predicate AreSlots(slots: seq<Slot>) {
    forall i :: 0 <= i < |slots| ==> IsSlot(slots[i])
  }

  predicate AreFields(fields: seq<Field>) {
    forall i :: 0 <= i < |fields| ==> IsField(fields[i])
  }

  /** No comments anywhere. */
  predicate IsBare(f: Form) {
    match f
    case List(gap, slots) => AreBlanks(gap) && forall i :: 0 <= i < |slots| ==> IsBareSlot(slots[i])
    case Record(gap, fields) => AreBlanks(gap) && forall i :: 0 <= i < |fields| ==> IsBareField(fields[i])
    case _ => true
  }

  predicate IsBareSlot(s: Slot) {
    AreBlanks(s.before) && IsBare(s.form) && AreBlanks(s.after)
  }

  predicate IsBareField(d: Field) {
    AreBlanks(d.before) && AreBlanks(d.beforeColon) && AreBlanks(d.afterColon) && IsBare(d.form) && AreBlanks(d.after)
  }

  predicate AreBareSlots(slots: seq<Slot>) {
    forall i :: 0 <= i < |slots| ==> IsBareSlot(slots[i])
  }

  predicate AreBareFields(fields: seq<Field>) {
    forall i :: 0 <= i < |fields| ==> IsBareField(fields[i])
  }

  // ---------- how they are written ----------

  function FormText(f: Form): (t: seq<byte>)
    requires IsForm(f)
    decreases f, 1
  {
    match f
    case NullWord => [110, 117, 108, 108]
    case FalseWord => [102, 97, 108, 115, 101]
    case TrueWord => [116, 114, 117, 101]
    case Numeric(x) => NumeralText(x)
    case Quoted(chars, closed) => [34] + (LiteralText(chars) + Close(closed))
    case List(gap, slots) => [91] + (GapText(gap) + (SlotsText(slots) + [93]))
    case Record(gap, fields) => [123] + (GapText(gap) + (FieldsText(fields) + [125]))
  }

  function SlotText(s: Slot): seq<byte>
    requires IsSlot(s)
    decreases s, 2
  {
    GapText(s.before) + (FormText(s.form) + GapText(s.after))
  }

  function SlotsText(slots: seq<Slot>): seq<byte>
    requires AreSlots(slots)
    decreases slots, 0
  {
    if slots == [] then []
    else SlotText(slots[0]) + (if |slots| == 1 then [] else [44] + SlotsText(slots[1..]))
  }

  function NameText(name: seq<Char>): seq<byte>
    requires IsLiteral(name)
  {
    [34] + (LiteralText(name) + [34])
  }

  function FieldText(d: Field): seq<byte>
    requires IsField(d)
    decreases d, 2
  {
    GapText(d.before) + (NameText(d.name) + (GapText(d.beforeColon) + ([58] + (GapText(d.afterColon)
      + (FormText(d.form) + GapText(d.after))))))
  }

  function FieldsText(fields: seq<Field>): seq<byte>
    requires AreFields(fields)
    decreases fields, 0
  {
    if fields == [] then []
    else FieldText(fields[0]) + (if |fields| == 1 then [] else [44] + FieldsText(fields[1..]))
  }

  // ---------- what they mean ----------

  function Meaning(f: Form): Json
    requires IsForm(f)
    decreases f, 1
  {
    match f
    case NullWord => Null
    case FalseWord => False
    case TrueWord => True
    case Numeric(x) => Number(NumeralMeaning(x))
    case Quoted(chars, _) => String(LiteralMeaning(chars))
    case List(_, slots) => Array(Meanings(slots))
    case Record(_, fields) => Object(MembersMeant(fields))
  }

  function Meanings(slots: seq<Slot>): seq<Json>
    requires AreSlots(slots)
    decreases slots, 0
  {
    if slots == [] then [] else [Meaning(slots[0].form)] + Meanings(slots[1..])
  }

  function MembersMeant(fields: seq<Field>): seq<Member>
    requires AreFields(fields)
    decreases fields, 0
  {
    if fields == [] then []
    else [Member(LiteralMeaning(fields[0].name), Meaning(fields[0].form))] + MembersMeant(fields[1..])
  }

  // ---------- the parser reads them ----------

  /** What may stand behind a form. */
  predicate Ends(f: Form, rest: seq<byte>) {
    match f
    case Numeric(x) => EndsNumeral(x, rest)
    case Quoted(_, closed) => closed || At(rest, 0) == 0
    case _ => true
  }

  /** No form starts with a blank, a comma or a closing bracket. */
  lemma FormStarts(f: Form)
    requires IsForm(f)
    ensures FormText(f) != [] && FormText(f)[0] > 32 && FormText(f)[0] !in {44, 93}
  {
    hide GapText, SlotsText, FieldsText, LiteralText;
  }

  /** Behind a slot stands a gap, and then a comma or a bracket. */
  lemma SlotEnds(f: Form, gap: seq<Filler>, b: byte, rest: seq<byte>)
    requires IsForm(f) && IsShut(f) && IsGap(gap) && AreBlanks(gap) && b in {44, 93, 125}
    ensures Ends(f, GapText(gap) + ([b] + rest)) && Skip(GapText(gap) + ([b] + rest)) == [b] + rest
  {
    BlanksAreBlank(gap);
    SkipBlank(GapText(gap), [b] + rest);
    NoSkip([b] + rest);
    hide GapText, Skip;
  }

  lemma {:induction false} Reads(f: Form, rest: seq<byte>)
    requires IsForm(f) && IsBare(f) && Ends(f, rest)
    ensures ParseValue(FormText(f) + rest) == Ok(Meaning(f), rest)
    decreases f, 3
  {
    match f
    case NullWord => WordRoundTrip(NULL_TEXT, rest);
    case FalseWord => WordRoundTrip(FALSE_TEXT, rest);
    case TrueWord => WordRoundTrip(TRUE_TEXT, rest);
    case Numeric(x) => NumericReads(x, rest);
    case Quoted(chars, closed) => QuotedReads(chars, closed, rest);
    case List(gap, slots) => ListReads(gap, slots, rest);
    case Record(gap, fields) => RecordReads(gap, fields, rest);
  }

  lemma NumericReads(x: Numeral, rest: seq<byte>)
    requires IsNumeral(x) && EndsNumeral(x, rest)
    ensures ParseValue(NumeralText(x) + rest) == Ok(Number(NumeralMeaning(x)), rest)
  {
    NumeralReads(x, rest);
    hide ParseNumber, NumeralText, NumeralMeaning;
  }

  lemma StringReads(chars: seq<Char>, closed: bool, rest: seq<byte>)
    requires IsLiteral(chars) && (!closed ==> At(rest, 0) == 0)
    ensures ParseString([34] + (LiteralText(chars) + Close(closed)) + rest) == Ok(LiteralMeaning(chars), rest)
  {
    hide Unescape, LiteralText, LiteralMeaning, Close, IsLiteral, ParseString;
    ReadLiteral(chars, closed, rest);
    InsideOut([34], LiteralText(chars), Close(closed), rest);
    ParseStringInside(LiteralText(chars) + (Close(closed) + rest));
  }

  lemma InsideOut(a: seq<byte>, b: seq<byte>, c: seq<byte>, d: seq<byte>)
    ensures a + (b + c) + d == a + (b + (c + d))
  {
  }

  lemma ParseStringInside(t: seq<byte>)
    ensures ParseString([34] + t) == Unescape(t)
  {
    hide Unescape;
    assert ([34] + t)[1..] == t;
  }

  lemma QuotedReads(chars: seq<Char>, closed: bool, rest: seq<byte>)
    requires IsLiteral(chars) && (!closed ==> At(rest, 0) == 0)
    ensures ParseValue([34] + (LiteralText(chars) + Close(closed)) + rest) == Ok(String(LiteralMeaning(chars)), rest)
  {
    StringReads(chars, closed, rest);
    hide ParseString, LiteralText, LiteralMeaning, Close;
    ParseValueOfString([34] + (LiteralText(chars) + Close(closed)) + rest);
    hide ParseValue;
  }

  lemma {:induction false} ListReads(gap: seq<Filler>, slots: seq<Slot>, rest: seq<byte>)
    requires IsForm(List(gap, slots)) && IsBare(List(gap, slots))
    ensures ParseValue(FormText(List(gap, slots)) + rest) == Ok(Array(Meanings(slots)), rest)
    decreases slots, 2
  {
    var close := [CLOSE_BRACKET] + rest;
    var body := SlotsText(slots) + close;
    var t := [91] + (GapText(gap) + body);
    EmptyTexts();
    hide FormText, ParseValue, ParseArray, ParseItems, SlotsText, Meanings, Skip, GapText;
    ListText(List(gap, slots), t, rest);
    assert t[1..] == GapText(gap) + body;
    ParseValueOfArray(t);
    if slots == [] {
      assert body == close && close[1..] == rest;
      AfterGap(gap, close);
      ParseNoItems(t, rest);
    } else {
      SlotsRead(slots, rest);
      SlotsStart(slots, close);
      assert [] + body == body;
      ParseArrayOfItems(t, Meanings(slots), rest);
    }
  }

  lemma ParseNoItems(t: seq<byte>, rest: seq<byte>)
    requires At(t, 0) == OPEN_BRACKET && Skip(t[1..]) == [CLOSE_BRACKET] + rest
    ensures ParseArray(t) == Ok(Array([]), rest)
  {
    hide Skip, ParseItems;
    assert ([CLOSE_BRACKET] + rest)[1..] == rest;
  }

  lemma ParseNoMembers(t: seq<byte>, rest: seq<byte>)
    requires At(t, 0) == OPEN_BRACE && Skip(t[1..]) == [CLOSE_BRACE] + rest
    ensures ParseObject(t) == Ok(Object([]), rest)
  {
    hide Skip, ParseMembers;
    assert ([CLOSE_BRACE] + rest)[1..] == rest;
  }

  /** A gap is skipped, and nothing behind it. */
  lemma AfterGap(gap: seq<Filler>, t: seq<byte>)
    requires IsGap(gap) && AreBlanks(gap) && At(t, 0) > 32
    ensures Skip(GapText(gap) + t) == t
  {
    BlanksAreBlank(gap);
    SkipBlank(GapText(gap), t);
    NoSkip(t);
    hide GapText, Skip;
  }

  /** What follows the first slot. */
  function SlotsTail(slots: seq<Slot>, close: seq<byte>): seq<byte>
    requires slots != [] && AreSlots(slots)
  {
    if |slots| == 1 then close else [44] + (SlotsText(slots[1..]) + close)
  }

  /** What a slot is read from, with what follows it. */
  function SlotThen(s: Slot, more: seq<byte>): seq<byte>
    requires IsSlot(s)
  {
    FormText(s.form) + (GapText(s.after) + more)
  }

  lemma SlotsSplit(slots: seq<Slot>, close: seq<byte>)
    requires slots != [] && AreSlots(slots)
    ensures IsSlot(slots[0]) && AreSlots(slots[1..])
    ensures SlotsText(slots) + close == GapText(slots[0].before) + SlotThen(slots[0], SlotsTail(slots, close))
  {
    hide SlotText, SlotThen, GapText;
    var s := slots[0];
    SlotsStep(slots);
    hide SlotsText;
    SlotAndMore(s, SlotsTail(slots, close));
    if |slots| > 1 {
      Assoc(SlotText(s), [44] + SlotsText(slots[1..]), close);
      Assoc([44], SlotsText(slots[1..]), close);
    }
  }

  lemma SlotsStep(slots: seq<Slot>)
    requires slots != [] && AreSlots(slots)
    ensures IsSlot(slots[0]) && AreSlots(slots[1..])
    ensures SlotsText(slots)
         == if |slots| == 1 then SlotText(slots[0]) else SlotText(slots[0]) + ([44] + SlotsText(slots[1..]))
  {
    hide SlotText;
    assert IsSlot(slots[0]);
  }

  lemma SlotAndMore(s: Slot, more: seq<byte>)
    requires IsSlot(s)
    ensures SlotText(s) + more == GapText(s.before) + SlotThen(s, more)
  {
    hide FormText, GapText;
  }

  /** Behind its gap a list of slots starts with its first form. */
  lemma SlotsStart(slots: seq<Slot>, close: seq<byte>)
    requires slots != [] && AreSlots(slots) && AreBareSlots(slots)
    ensures var body := SlotsText(slots) + close;
      At(Skip(body), 0) !in {44, 93} && ParseItems(Skip(body)) == ParseItems(body)
  {
    var s := slots[0];
    assert IsSlot(s) && IsBareSlot(s);
    SlotsSplit(slots, close);
    FormStarts(s.form);
    var next := SlotThen(s, SlotsTail(slots, close));
    hide SlotsText, FormText, GapText, ParseItems, SlotsTail;
    assert next[0] == FormText(s.form)[0];
    BlanksAreBlank(s.before);
    SkipBlank(GapText(s.before), next);
    NoSkip(next);
    SkipInItems(GapText(s.before), next);
  }

  lemma {:induction false} SlotsRead(slots: seq<Slot>, rest: seq<byte>)
    requires slots != [] && AreSlots(slots) && AreBareSlots(slots)
    ensures ParseItems(SlotsText(slots) + ([CLOSE_BRACKET] + rest)) == Ok(Meanings(slots), rest)
    decreases slots, 1
  {
    var s, close := slots[0], [CLOSE_BRACKET] + rest;
    var more := SlotsTail(slots, close);
    SlotsSplit(slots, close);
    SlotsMean(slots);
    assert IsBareSlot(s);
    hide FormText, ParseItems, ParseValue, SlotsText, Skip, GapText, Meaning, Meanings, SlotThen;
    SlotEnds(s.form, s.after, more[0], more[1..]);
    assert more == [more[0]] + more[1..];
    Reads(s.form, GapText(s.after) + more);
    SlotReads(s, more);
    if |slots| > 1 {
      assert more[1..] == SlotsText(slots[1..]) + close;
      SlotsRead(slots[1..], rest);
    } else {
      assert more[1..] == rest;
    }
  }

  /** One slot, whose form is read as what it means, and the comma or bracket behind it. */
  lemma SlotReads(s: Slot, more: seq<byte>)
    requires IsSlot(s) && IsBareSlot(s) && At(more, 0) in {44, 93}
    requires ParseValue(FormText(s.form) + (GapText(s.after) + more)) == Ok(Meaning(s.form), GapText(s.after) + more)
    ensures var t := GapText(s.before) + SlotThen(s, more);
      && (more[0] == 44 ==> ParseItems(t) == Prepend([Meaning(s.form)], ParseItems(more[1..])))
      && (more[0] == 93 ==> ParseItems(t) == Ok([Meaning(s.form)], more[1..]))
  {
    FormStarts(s.form);
    hide FormText, ParseItems, ParseValue, Skip, GapText, Meaning;
    var t := SlotThen(s, more);
    AfterGap(s.before, t);
    AfterGap(s.after, more);
    ParseItemsStep(GapText(s.before) + t, Meaning(s.form), GapText(s.after) + more);
  }

  lemma SlotsMean(slots: seq<Slot>)
    requires slots != [] && AreSlots(slots)
    ensures IsSlot(slots[0]) && AreSlots(slots[1..])
    ensures Meanings(slots) == [Meaning(slots[0].form)] + Meanings(slots[1..])
    ensures |slots| == 1 ==> Meanings(slots) == [Meaning(slots[0].form)]
  {
    hide Meaning;
  }

  lemma FieldsMean(fields: seq<Field>)
    requires fields != [] && AreFields(fields)
    ensures IsField(fields[0]) && AreFields(fields[1..])
    ensures MembersMeant(fields)
         == [Member(LiteralMeaning(fields[0].name), Meaning(fields[0].form))] + MembersMeant(fields[1..])
    ensures |fields| == 1 ==> MembersMeant(fields) == [Member(LiteralMeaning(fields[0].name), Meaning(fields[0].form))]
  {
    hide Meaning, LiteralMeaning;
  }

  lemma {:induction false} RecordReads(gap: seq<Filler>, fields: seq<Field>, rest: seq<byte>)
    requires IsForm(Record(gap, fields)) && IsBare(Record(gap, fields))
    ensures ParseValue(FormText(Record(gap, fields)) + rest) == Ok(Object(MembersMeant(fields)), rest)
    decreases fields, 2
  {
    var close := [CLOSE_BRACE] + rest;
    var body := FieldsText(fields) + close;
    var t := [123] + (GapText(gap) + body);
    EmptyTexts();
    hide FormText, ParseValue, ParseObject, ParseMembers, FieldsText, MembersMeant, Skip, GapText;
    RecordText(Record(gap, fields), t, rest);
    assert t[1..] == GapText(gap) + body;
    ParseValueOfObject(t);
    if fields == [] {
      assert body == close && close[1..] == rest;
      AfterGap(gap, close);
      ParseNoMembers(t, rest);
    } else {
      FieldsRead(fields, rest);
      FieldsStart(fields, close);
      assert [] + body == body;
      ParseObjectOfMembers(t, MembersMeant(fields), rest);
    }
  }

  lemma FieldsStart(fields: seq<Field>, close: seq<byte>)
    requires fields != [] && AreFields(fields) && AreBareFields(fields)
    ensures var body := FieldsText(fields) + close;
      At(Skip(body), 0) == QUOTE && ParseMembers(Skip(body)) == ParseMembers(body)
  {
    var d := fields[0];
    assert IsField(d) && IsBareField(d);
    FieldsSplit(fields, close);
    var body := FieldsText(fields) + close;
    hide FieldsText, FormText, GapText;
    var next := body[|GapText(d.before)|..];
    assert body == GapText(d.before) + next && next[0] == QUOTE;
    BlanksAreBlank(d.before);
    SkipBlank(GapText(d.before), next);
    NoSkip(next);
    SkipInMembers(GapText(d.before), next);
  }

  /** What follows the first field. */
  function FieldsTail(fields: seq<Field>, close: seq<byte>): seq<byte>
    requires fields != [] && AreFields(fields)
  {
    if |fields| == 1 then close else [44] + (FieldsText(fields[1..]) + close)
  }

  /** What a field is read from, with what follows it. */
  function FieldThen(d: Field, more: seq<byte>): seq<byte>
    requires IsField(d)
  {
    NameText(d.name) + (GapText(d.beforeColon) + ([58] + (GapText(d.afterColon) + (FormText(d.form)
      + (GapText(d.after) + more)))))
  }

  lemma FieldsSplit(fields: seq<Field>, close: seq<byte>)
    requires fields != [] && AreFields(fields)
    ensures IsField(fields[0]) && AreFields(fields[1..])
    ensures FieldsText(fields) + close
         == GapText(fields[0].before) + FieldThen(fields[0], FieldsTail(fields, close))
  {
    hide FieldText, FieldThen, GapText;
    var d := fields[0];
    FieldsStep(fields);
    hide FieldsText;
    FieldAndMore(d, FieldsTail(fields, close));
    if |fields| > 1 {
      Assoc(FieldText(d), [44] + FieldsText(fields[1..]), close);
      Assoc([44], FieldsText(fields[1..]), close);
    }
  }

  lemma FieldsStep(fields: seq<Field>)
    requires fields != [] && AreFields(fields)
    ensures IsField(fields[0]) && AreFields(fields[1..])
    ensures FieldsText(fields)
         == if |fields| == 1 then FieldText(fields[0]) else FieldText(fields[0]) + ([44] + FieldsText(fields[1..]))
  {
    hide FieldText;
    assert IsField(fields[0]);
  }

  lemma FieldAndMore(d: Field, more: seq<byte>)
    requires IsField(d)
    ensures FieldText(d) + more == GapText(d.before) + FieldThen(d, more)
  {
    hide FormText, GapText, NameText;
  }

  lemma FieldReads(d: Field, more: seq<byte>)
    requires IsField(d) && IsBareField(d) && At(more, 0) in {44, 125}
    requires ParseValue(FormText(d.form) + (GapText(d.after) + more)) == Ok(Meaning(d.form), GapText(d.after) + more)
    ensures var m := Member(LiteralMeaning(d.name), Meaning(d.form));
      ParseMember(GapText(d.before) + FieldThen(d, more)) == Ok(m, GapText(d.after) + more)
  {
    var t, after := FieldThen(d, more), GapText(d.after) + more;
    var value := FormText(d.form) + after;
    var colon := [58] + (GapText(d.afterColon) + value);
    var named := GapText(d.beforeColon) + colon;
    FormStarts(d.form);
    NameReads(d.name, named);
    hide FormText, ParseMember, ParseString, ParseValue, Skip, GapText, Meaning, LiteralMeaning, NameText;
    assert t == NameText(d.name) + named;
    assert colon[1..] == GapText(d.afterColon) + value;
    AfterGap(d.before, t);
    AfterGap(d.beforeColon, colon);
    AfterGap(d.afterColon, value);
    ParseMemberStep(GapText(d.before) + t, Member(LiteralMeaning(d.name), Meaning(d.form)), named, after);
  }

  lemma NameReads(name: seq<Char>, rest: seq<byte>)
    requires IsLiteral(name)
    ensures ParseString(NameText(name) + rest) == Ok(LiteralMeaning(name), rest) && NameText(name)[0] == 34
  {
    StringReads(name, true, rest);
    hide ParseString, LiteralText, LiteralMeaning;
  }

  lemma {:induction false} FieldsRead(fields: seq<Field>, rest: seq<byte>)
    requires fields != [] && AreFields(fields) && AreBareFields(fields)
    ensures ParseMembers(FieldsText(fields) + ([CLOSE_BRACE] + rest)) == Ok(MembersMeant(fields), rest)
    decreases fields, 1
  {
    var d, close := fields[0], [CLOSE_BRACE] + rest;
    var more := FieldsTail(fields, close);
    FieldsSplit(fields, close);
    FieldsMean(fields);
    assert IsBareField(d);
    hide FormText, ParseMembers, ParseMember, ParseValue, FieldsText, FieldThen, Skip, GapText, Meaning, LiteralMeaning;
    hide MembersMeant;
    SlotEnds(d.form, d.after, more[0], more[1..]);
    assert more == [more[0]] + more[1..];
    Reads(d.form, GapText(d.after) + more);
    FieldReads(d, more);
    ParseMembersStep(GapText(d.before) + FieldThen(d, more), Member(LiteralMeaning(d.name), Meaning(d.form)),
                     GapText(d.after) + more);
    if |fields| > 1 {
      assert more[1..] == FieldsText(fields[1..]) + close;
      FieldsRead(fields[1..], rest);
    } else {
      assert more[1..] == rest;
    }
  }

  // ---------- and reads nothing else ----------

  lemma {:induction false} FormOf(t: seq<byte>) returns (f: Form)
    requires ParseValue(t).Ok?
    ensures IsForm(f) && IsBare(f) && t == FormText(f) + ParseValue(t).rest && Meaning(f) == ParseValue(t).value
    ensures Ends(f, ParseValue(t).rest)
    decreases |t|, 2
  {
    if StartsWith(t, NULL_TEXT) {
      f := NullWord;
    } else if StartsWith(t, FALSE_TEXT) {
      f := FalseWord;
    } else if StartsWith(t, TRUE_TEXT) {
      f := TrueWord;
    } else if At(t, 0) == QUOTE {
      f := QuotedOf(t);
    } else if At(t, 0) == MINUS || IsDigit(At(t, 0)) {
      f := NumericOf(t);
    } else if At(t, 0) == OPEN_BRACKET {
      ParseValueOfArray(t);
      f := ListOf(t);
    } else {
      ParseValueOfObject(t);
      f := RecordOf(t);
    }
    hide ParseArray, ParseObject, ParseNumber, ParseString, FormText, Meaning, IsForm, IsBare;
  }

  lemma QuotedOf(t: seq<byte>) returns (f: Form)
    requires At(t, 0) == QUOTE && ParseString(t).Ok?
    ensures f.Quoted? && IsForm(f) && t == FormText(f) + ParseString(t).rest
    ensures Meaning(f) == String(ParseString(t).value) && Ends(f, ParseString(t).rest)
  {
    assert t == [34] + t[1..];
    ParseStringInside(t[1..]);
    hide Unescape, LiteralText, LiteralMeaning, IsLiteral, ParseString;
    var chars, closed := LiteralOf(t[1..]);
    f := Quoted(chars, closed);
    InsideOut([34], LiteralText(chars), Close(closed), ParseString(t).rest);
  }

  lemma NumericOf(t: seq<byte>) returns (f: Form)
    requires (At(t, 0) == MINUS || IsDigit(At(t, 0))) && ParseNumber(t).Ok?
    ensures f.Numeric? && IsForm(f) && t == FormText(f) + ParseNumber(t).rest
    ensures Meaning(f) == ParseNumber(t).value && Ends(f, ParseNumber(t).rest)
  {
    var x := NumeralOf(t);
    f := Numeric(x);
    hide ParseNumber, NumeralText, NumeralMeaning;
  }

  lemma ArrayParts(t: seq<byte>)
    requires At(t, 0) == OPEN_BRACKET && ParseArray(t).Ok?
    ensures var body := Skip(t[1..]);
      && (At(body, 0) == CLOSE_BRACKET ==> ParseArray(t) == Ok(Array([]), body[1..]))
      && (At(body, 0) != CLOSE_BRACKET ==>
            ParseItems(t[1..]).Ok?
            && ParseArray(t) == Ok(Array(ParseItems(t[1..]).value), ParseItems(t[1..]).rest))
  {
    hide ParseItems, Skip;
    ParseItemsFromSkip(t[1..]);
  }

  lemma EmptyTexts()
    ensures SlotsText([]) == [] == FieldsText([]) && Meanings([]) == [] && MembersMeant([]) == [] && GapText([]) == []
  {
  }

  lemma {:induction false} ListOf(t: seq<byte>) returns (f: Form)
    requires At(t, 0) == OPEN_BRACKET && ParseArray(t).Ok?
    ensures f.List? && IsForm(f) && IsBare(f) && t == FormText(f) + ParseArray(t).rest
    ensures Meaning(f) == ParseArray(t).value
    decreases |t|, 1
  {
    hide ParseArray, ParseItems, Skip, SlotsText, FormText, GapText, Meanings;
    ArrayParts(t);
    EmptyTexts();
    var rest := ParseArray(t).rest;
    assert t == [91] + t[1..];
    if At(Skip(t[1..]), 0) == CLOSE_BRACKET {
      var gap := GapOf(t[1..]);
      f := List(gap, []);
      assert Skip(t[1..]) == [93] + rest == [] + ([93] + rest);
    } else {
      var slots := SlotsOf(t[1..]);
      f := List([], slots);
      assert t[1..] == [] + t[1..];
    }
    ListText(f, t, rest);
  }

  lemma ListText(f: Form, t: seq<byte>, rest: seq<byte>)
    requires f.List? && IsForm(f) && t == [91] + (GapText(f.gap) + (SlotsText(f.slots) + ([93] + rest)))
    ensures t == FormText(f) + rest
  {
    hide GapText, SlotsText;
  }

  lemma ItemsParts(t: seq<byte>)
    requires ParseItems(t).Ok?
    ensures var v := ParseValue(Skip(t));
      && v.Ok?
      && var next := Skip(v.rest);
      && At(next, 0) in {COMMA, CLOSE_BRACKET}
      && (At(next, 0) == COMMA ==>
            && ParseItems(next[1..]).Ok? && ParseItems(t).rest == ParseItems(next[1..]).rest
            && ParseItems(t).value == [v.value] + ParseItems(next[1..]).value)
      && (At(next, 0) == CLOSE_BRACKET ==> ParseItems(t) == Ok([v.value], next[1..]))
  {
    hide ParseValue, Skip;
  }

  /** An open literal has nothing behind it. */
  lemma OpenEnds(f: Form, after: seq<byte>)
    requires Ends(f, after) && At(Skip(after), 0) != 0
    ensures IsShut(f)
  {
  }

  /** One slot, and where it ends. */
  lemma {:induction false} SlotOf(t: seq<byte>, next: seq<byte>) returns (s: Slot)
    requires ParseValue(Skip(t)).Ok? && next == Skip(ParseValue(Skip(t)).rest) && At(next, 0) != 0
    ensures IsSlot(s) && IsBareSlot(s) && Meaning(s.form) == ParseValue(Skip(t)).value
    ensures t == GapText(s.before) + SlotThen(s, next)
    decreases |t|, 3
  {
    hide ParseValue, Skip, Meaning, FormText, GapText;
    var after := ParseValue(Skip(t)).rest;
    var before := GapOf(t);
    var f := FormOf(Skip(t));
    var gap := GapOf(after);
    OpenEnds(f, after);
    s := Slot(before, f, gap);
  }

  lemma {:induction false} SlotsOf(t: seq<byte>) returns (slots: seq<Slot>)
    requires ParseItems(t).Ok?
    ensures slots != [] && AreSlots(slots) && AreBareSlots(slots) && Meanings(slots) == ParseItems(t).value
    ensures t == SlotsText(slots) + ([93] + ParseItems(t).rest)
    decreases |t|, 4
  {
    hide ParseItems, ParseValue, Skip, SlotsText, SlotThen, Meaning, Meanings, GapText;
    ItemsParts(t);
    var next := Skip(ParseValue(Skip(t)).rest);
    var s := SlotOf(t, next);
    slots := [s];
    var more := [93] + ParseItems(t).rest;
    if At(next, 0) == COMMA {
      var others := SlotsOf(next[1..]);
      slots := [s] + others;
      assert slots[1..] == others;
    }
    SlotsMean(slots);
    SlotsSplit(slots, more);
    assert next == SlotsTail(slots, more);
  }

  lemma ObjectParts(t: seq<byte>)
    requires At(t, 0) == OPEN_BRACE && ParseObject(t).Ok?
    ensures var body := Skip(t[1..]);
      && (At(body, 0) == CLOSE_BRACE ==> ParseObject(t) == Ok(Object([]), body[1..]))
      && (At(body, 0) != CLOSE_BRACE ==>
            ParseMembers(t[1..]).Ok?
            && ParseObject(t) == Ok(Object(ParseMembers(t[1..]).value), ParseMembers(t[1..]).rest))
  {
    hide ParseMembers, Skip;
    ParseMembersFromSkip(t[1..]);
  }

  lemma {:induction false} RecordOf(t: seq<byte>) returns (f: Form)
    requires At(t, 0) == OPEN_BRACE && ParseObject(t).Ok?
    ensures f.Record? && IsForm(f) && IsBare(f) && t == FormText(f) + ParseObject(t).rest
    ensures Meaning(f) == ParseObject(t).value
    decreases |t|, 1
  {
    hide ParseObject, ParseMembers, Skip, FieldsText, FormText, GapText, MembersMeant;
    ObjectParts(t);
    EmptyTexts();
    var rest := ParseObject(t).rest;
    assert t == [123] + t[1..];
    if At(Skip(t[1..]), 0) == CLOSE_BRACE {
      var gap := GapOf(t[1..]);
      f := Record(gap, []);
      assert Skip(t[1..]) == [125] + rest == [] + ([125] + rest);
    } else {
      var fields := FieldsOf(t[1..]);
      f := Record([], fields);
      assert t[1..] == [] + t[1..];
    }
    RecordText(f, t, rest);
  }

  lemma RecordText(f: Form, t: seq<byte>, rest: seq<byte>)
    requires f.Record? && IsForm(f) && t == [123] + (GapText(f.gap) + (FieldsText(f.fields) + ([125] + rest)))
    ensures t == FormText(f) + rest
  {
    hide GapText, FieldsText;
  }

  lemma MembersParts(t: seq<byte>)
    requires ParseMembers(t).Ok?
    ensures var m := ParseMember(t);
      && m.Ok?
      && var next := Skip(m.rest);
      && At(next, 0) in {COMMA, CLOSE_BRACE}
      && (At(next, 0) == COMMA ==>
            && ParseMembers(next[1..]).Ok? && ParseMembers(t).rest == ParseMembers(next[1..]).rest
            && ParseMembers(t).value == [m.value] + ParseMembers(next[1..]).value)
      && (At(next, 0) == CLOSE_BRACE ==> ParseMembers(t) == Ok([m.value], next[1..]))
  {
    hide ParseMember, Skip;
  }

  lemma MemberParts(t: seq<byte>)
    requires ParseMember(t).Ok?
    ensures var name := ParseString(Skip(t));
      && name.Ok?
      && var colon := Skip(name.rest);
      && At(colon, 0) == COLON
      && var v := ParseValue(Skip(colon[1..]));
      && v.Ok? && ParseMember(t) == Ok(Member(name.value, v.value), v.rest)
  {
    hide ParseValue, ParseString, Skip;
  }

  /** The name of a member, with the gap behind it. */
  lemma NameOf(t: seq<byte>) returns (name: seq<Char>, gap: seq<Filler>)
    requires ParseString(t).Ok? && At(Skip(ParseString(t).rest), 0) != 0
    ensures IsLiteral(name) && IsGap(gap) && AreBlanks(gap) && LiteralMeaning(name) == ParseString(t).value
    ensures t == NameText(name) + (GapText(gap) + Skip(ParseString(t).rest))
  {
    var f := QuotedOf(t);
    var after := ParseString(t).rest;
    OpenEnds(f, after);
    name := f.chars;
    gap := GapOf(after);
    hide ParseString, LiteralText, LiteralMeaning, GapText, Skip;
  }

  /** One field, and where it ends. */
  lemma {:induction false} FieldOf(t: seq<byte>, next: seq<byte>) returns (d: Field)
    requires ParseMember(t).Ok? && next == Skip(ParseMember(t).rest) && At(next, 0) != 0
    ensures IsField(d) && IsBareField(d)
    ensures Member(LiteralMeaning(d.name), Meaning(d.form)) == ParseMember(t).value
    ensures t == GapText(d.before) + FieldThen(d, next)
    decreases |t|, 3
  {
    hide ParseMember, ParseValue, ParseString, Skip, Meaning, LiteralMeaning, FormText, GapText, NameText, FieldThen;
    MemberParts(t);
    var before := GapOf(t);
    var colon := Skip(ParseString(Skip(t)).rest);
    var name, beforeColon := NameOf(Skip(t));
    var afterColon := GapOf(colon[1..]);
    var value := Skip(colon[1..]);
    var f := FormOf(value);
    var after := ParseValue(value).rest;
    var gap := GapOf(after);
    OpenEnds(f, after);
    d := Field(before, name, beforeColon, afterColon, f, gap);
    FieldIs(d, colon, value, next, t);
  }

  lemma {:induction false} FieldsOf(t: seq<byte>) returns (fields: seq<Field>)
    requires ParseMembers(t).Ok?
    ensures fields != [] && AreFields(fields) && AreBareFields(fields) && MembersMeant(fields) == ParseMembers(t).value
    ensures t == FieldsText(fields) + ([125] + ParseMembers(t).rest)
    decreases |t|, 4
  {
    hide ParseMembers, ParseMember, Skip, FieldsText, FieldThen, Meaning, LiteralMeaning, MembersMeant, GapText;
    MembersParts(t);
    var next := Skip(ParseMember(t).rest);
    var d := FieldOf(t, next);
    fields := [d];
    var more := [125] + ParseMembers(t).rest;
    if At(next, 0) == COMMA {
      var others := FieldsOf(next[1..]);
      fields := [d] + others;
      assert fields[1..] == others;
    }
    FieldsMean(fields);
    FieldsSplit(fields, more);
    assert next == FieldsTail(fields, more);
  }

  lemma FieldIs(d: Field, colon: seq<byte>, value: seq<byte>, next: seq<byte>, t: seq<byte>)
    requires IsField(d) && colon != [] && colon[0] == 58
    requires t == GapText(d.before) + (NameText(d.name) + (GapText(d.beforeColon) + colon))
    requires colon[1..] == GapText(d.afterColon) + value && value == FormText(d.form) + (GapText(d.after) + next)
    ensures t == GapText(d.before) + FieldThen(d, next)
  {
    hide GapText, NameText, FormText, IsField;
    assert colon == [58] + colon[1..];
  }

  /** The parser answers with a value and a rest iff the text is a form that means the value, then the rest. */
  lemma ParsesIff(t: seq<byte>, v: Json, rest: seq<byte>)
    ensures ParseValue(t) == Ok(v, rest) <==>
      exists f: Form ::
        IsForm(f) && IsBare(f) && Ends(f, rest) && t == FormText(f) + rest && Meaning(f) == v
  {
    if ParseValue(t) == Ok(v, rest) {
      var f := FormOf(t);
    }
    if f: Form :| IsForm(f) && IsBare(f) && Ends(f, rest) && t == FormText(f) + rest && Meaning(f) == v {
      Reads(f, rest);
    }
    hide ParseValue, IsForm, IsBare, Ends, FormText, Meaning;
  }

  // ---------- whole texts ----------

  lemma BlanksEnd(f: Form, gap: seq<Filler>)
    requires IsForm(f) && IsShut(f) && IsGap(gap) && AreBlanks(gap)
    ensures Ends(f, GapText(gap))
  {
    BlanksAreBlank(gap);
  }

  lemma TextReads(before: seq<Filler>, f: Form, after: seq<Filler>)
    requires IsGap(before) && AreBlanks(before) && IsForm(f) && IsBare(f)
    requires IsGap(after) && AreBlanks(after) && Ends(f, GapText(after))
    ensures ParseText(GapText(before) + (FormText(f) + GapText(after)), true) == Ok(Meaning(f), [])
  {
    var a := GapText(after);
    FormStarts(f);
    Reads(f, a);
    BlanksAreBlank(after);
    hide ParseValue, FormText, GapText, Meaning;
    AfterGap(before, FormText(f) + a);
    SkipBlank(a, []);
    assert a + [] == a && Skip([]) == [];
  }

  lemma FormIsText(before: seq<Filler>, f: Form, after: seq<Filler>)
    requires IsGap(before) && AreBlanks(before) && IsForm(f) && IsBare(f) && IsShut(f)
    requires IsGap(after) && AreBlanks(after)
    ensures ParseText(GapText(before) + (FormText(f) + GapText(after)), true) == Ok(Meaning(f), [])
  {
    BlanksEnd(f, after);
    TextReads(before, f, after);
  }

  lemma TextOf(t: seq<byte>, v: Json) returns (before: seq<Filler>, f: Form, after: seq<Filler>)
    requires ParseText(t, true) == Ok(v, [])
    ensures IsGap(before) && AreBlanks(before) && IsForm(f) && IsBare(f) && IsGap(after) && AreBlanks(after)
    ensures Ends(f, GapText(after)) && t == GapText(before) + (FormText(f) + GapText(after)) && Meaning(f) == v
  {
    var rest := ParseValue(Skip(t)).rest;
    before := GapOf(t);
    f := FormOf(Skip(t));
    after := GapOf(rest);
    hide ParseValue, FormText, GapText, Meaning, Skip;
    assert rest == GapText(after);
  }

  /** A whole text is accepted, as a value and with nothing behind it, iff it is a form that means the value, with
      blanks around it. */
  lemma TextsIff(t: seq<byte>, v: Json)
    ensures ParseText(t, true) == Ok(v, []) <==>
      exists before: seq<Filler>, f: Form, after: seq<Filler> ::
        && IsGap(before) && AreBlanks(before) && IsForm(f) && IsBare(f) && IsGap(after) && AreBlanks(after)
        && Ends(f, GapText(after)) && t == GapText(before) + (FormText(f) + GapText(after)) && Meaning(f) == v
  {
    if ParseText(t, true) == Ok(v, []) {
      var before, f, after := TextOf(t, v);
    }
    if before: seq<Filler>, f: Form, after: seq<Filler> :|
       && IsGap(before) && AreBlanks(before) && IsForm(f) && IsBare(f) && IsGap(after) && AreBlanks(after)
       && Ends(f, GapText(after)) && t == GapText(before) + (FormText(f) + GapText(after)) && Meaning(f) == v {
      TextReads(before, f, after);
    }
    hide ParseText, IsForm, IsBare, Ends, FormText, GapText, Meaning, IsGap, AreBlanks;
  }

  /** And where what follows is left to the caller, iff it starts with blanks and such a form. */
  lemma TextStartsIff(t: seq<byte>, v: Json, rest: seq<byte>)
    ensures ParseText(t, false) == Ok(v, rest) <==>
      exists before: seq<Filler>, f: Form ::
        && IsGap(before) && AreBlanks(before) && IsForm(f) && IsBare(f) && Ends(f, rest)
        && t == GapText(before) + (FormText(f) + rest) && Meaning(f) == v
  {
    hide ParseValue, FormText, GapText, Meaning, Skip, IsForm, IsBare, Ends, IsGap, AreBlanks;
    if ParseText(t, false) == Ok(v, rest) {
      var before := GapOf(t);
      var f := FormOf(Skip(t));
    }
    if before: seq<Filler>, f: Form :|
       && IsGap(before) && AreBlanks(before) && IsForm(f) && IsBare(f) && Ends(f, rest)
       && t == GapText(before) + (FormText(f) + rest) && Meaning(f) == v {
      FormStarts(f);
      AfterGap(before, FormText(f) + rest);
      Reads(f, rest);
    }
  }
}
