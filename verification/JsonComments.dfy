/** cJSON_Minify on texts with comments: it takes out the comments and the white space between tokens, nothing else,
    so what is left is read as what the text with its comments means. */
module JsonComments {
  import opened Bytes
  import opened JsonText
  import opened JsonUnicode
  import opened JsonRoundTrip
  import opened JsonMinify
  import opened JsonMinifyPrint
  import opened JsonTokens
  import opened JsonGrammar

  // ---------- one comment ----------

  lemma {:induction false} LineEnds(c: seq<byte>, t: seq<byte>)
    requires NulFree(c) && NEWLINE !in c
    ensures AfterLine(c + t) == AfterLine(t)
  {
    if c == [] {
      assert c + t == t;
    } else {
      assert (c + t)[1..] == c[1..] + t;
      LineEnds(c[1..], t);
    }
  }

  /** Two slashes and all up to the end of the line are dropped, and reading goes on in the next line. */
  lemma LineIsDropped(c: seq<byte>, t: seq<byte>)
    requires NulFree(c) && NEWLINE !in c
    ensures Minify([SLASH, SLASH] + c + [NEWLINE] + t) == Minify(t)
  {
    var u := [SLASH, SLASH] + c + [NEWLINE] + t;
    var end := [NEWLINE] + t;
    assert u[1..] == [SLASH] + (c + end);
    LineEnds([SLASH] + c, end);
    assert [SLASH] + c + end == [SLASH] + (c + end);
    assert AfterLine(end) == end && end[1..] == t;
    hide AfterLine;
  }

  /** In the last line, all that is left. */
  lemma LastLineIsDropped(c: seq<byte>)
    requires NulFree(c) && NEWLINE !in c
    ensures Minify([SLASH, SLASH] + c) == Text([])
  {
    var u := [SLASH, SLASH] + c;
    assert u[1..] == ([SLASH] + c) + [];
    LineEnds([SLASH] + c, []);
  }

  /** From a byte of a comment on, when no star and slash lie before its end. */
  lemma {:induction false} BlockEnds(c: seq<byte>, t: seq<byte>)
    requires c != [] && NulFree(c) && forall i :: 0 <= i < |c| - 1 ==> !ClosesAt(c, i)
    ensures AfterBlock(c + ([STAR, SLASH] + t)) == Rest(t)
    decreases |c|
  {
    var end := [STAR, SLASH] + t;
    var u := c + end;
    assert u[1..] == c[1..] + end;
    if |c| == 1 {
      assert u[1..] == end && end[2..] == t;
    } else {
      assert !ClosesAt(c, 0);
      assert forall i :: 0 <= i < |c[1..]| - 1 ==> ClosesAt(c[1..], i) == ClosesAt(c, i + 1);
      BlockEnds(c[1..], t);
    }
  }

  /** Slash and star, all that holds no star and slash, the star of its start included, and star and slash. */
  lemma BlockIsDropped(c: seq<byte>, t: seq<byte>)
    requires StaysOpen(c)
    ensures Minify([SLASH, STAR] + c + [STAR, SLASH] + t) == Minify(t)
  {
    var u, inside := [SLASH, STAR] + c + [STAR, SLASH] + t, [STAR] + c;
    assert u[1..] == inside + ([STAR, SLASH] + t);
    BlockEnds(inside, t);
    hide AfterBlock;
  }

  /** Between literals all but white space and comments is copied, a slash on its own as well. */
  lemma OthersAreKept(b: byte, t: seq<byte>)
    requires b !in {0, 9, 10, 13, 32, 34} && (b == 47 ==> At(t, 0) != 47 && At(t, 0) != 42)
    ensures Minify([b] + t) == Before([b], Minify(t))
  {
    assert ([b] + t)[1..] == t && At([b] + t, 1) == At(t, 0);
  }

  // ---------- gaps ----------

  predicate IsDroppedBlank(f: Filler) {
    f.Blank? && f.b in {SPACE, TAB, RETURN, NEWLINE}
  }

  /** What is left of a gap: control characters the minifier does not take for white space. */
  function Kept(gap: seq<Filler>): seq<Filler> {
    if gap == [] then []
    else if gap[0].Blank? && !IsDroppedBlank(gap[0]) then [gap[0]] + Kept(gap[1..])
    else Kept(gap[1..])
  }

  lemma {:induction false} KeptIsGap(gap: seq<Filler>)
    requires IsGap(gap)
    ensures IsGap(Kept(gap)) && AreBlanks(Kept(gap))
  {
    if gap != [] {
      KeptIsGap(gap[1..]);
    }
  }

  lemma FillerMinifies(f: Filler, t: seq<byte>)
    requires IsFiller(f)
    ensures !f.Blank? || IsDroppedBlank(f) ==> Minify(FillerText(f) + t) == Minify(t)
    ensures f.Blank? && !IsDroppedBlank(f) ==> Minify(FillerText(f) + t) == Before([f.b], Minify(t))
  {
    match f
    case Blank(b) => assert ([b] + t)[1..] == t;
    case Line(text) => LineIsDropped(text, t);
    case Block(text) => BlockIsDropped(text, t);
  }

  lemma {:induction false} GapMinifies(gap: seq<Filler>, t: seq<byte>)
    requires IsGap(gap)
    ensures Minify(GapText(gap) + t) == Before(GapText(Kept(gap)), Minify(t))
  {
    if gap == [] {
      assert [] + t == t;
      BeforeNothing(Minify(t));
    } else {
      var f, more := gap[0], GapText(gap[1..]) + t;
      assert IsFiller(f) && GapText(gap) + t == FillerText(f) + more;
      FillerMinifies(f, more);
      GapMinifies(gap[1..], t);
      if f.Blank? && !IsDroppedBlank(f) {
        KeptText(f, gap[1..]);
        BeforeBefore([f.b], GapText(Kept(gap[1..])), Minify(t));
      }
      hide Minify, GapText, FillerText;
    }
  }

  lemma KeptText(f: Filler, gap: seq<Filler>)
    requires f.Blank? && !IsDroppedBlank(f)
    ensures GapText([f] + Kept(gap)) == [f.b] + GapText(Kept(gap))
  {
    assert ([f] + Kept(gap))[1..] == Kept(gap);
  }

  // ---------- literals and numerals are copied ----------

  lemma HexEscapeInLiteral(hex: seq<Digit>, t: seq<byte>)
    requires IsFour(hex)
    ensures LiteralEnd(HexEscape(hex) + t) == LiteralEnd(t)
  {
    var u := HexEscape(hex) + t;
    assert u[2..] == HexText(hex) + t;
    PlainInLiteral(HexText(hex), t);
  }

  lemma CharInLiteral(c: Char, t: seq<byte>)
    requires IsChar(c)
    ensures LiteralEnd(CharText(c) + t) == LiteralEnd(t)
  {
    hide HexEscape;
    match c
    case Raw(b) => assert (CharText(c) + t)[1..] == t;
    case Short(letter) => assert (CharText(c) + t)[2..] == t;
    case Lost(hex) => HexEscapeInLiteral(hex, t);
    case Unicode(Single(hex)) => HexEscapeInLiteral(hex, t);
    case Unicode(Pair(high, low)) => TwoEscapesInLiteral(high, low, t);
    case Broken(high, other) => TwoEscapesInLiteral(high, other, t);
  }

  lemma TwoEscapesInLiteral(a: seq<Digit>, b: seq<Digit>, t: seq<byte>)
    requires IsFour(a) && IsFour(b)
    ensures LiteralEnd(HexEscape(a) + HexEscape(b) + t) == LiteralEnd(t)
  {
    HexEscapeInLiteral(a, HexEscape(b) + t);
    HexEscapeInLiteral(b, t);
    hide HexEscape, LiteralEnd;
    Assoc(HexEscape(a), HexEscape(b), t);
  }

  lemma {:induction false} LiteralEnds(cs: seq<Char>, t: seq<byte>)
    requires IsLiteral(cs)
    ensures LiteralEnd(LiteralText(cs) + ([QUOTE] + t)) == Rest(t)
  {
    if cs == [] {
      assert [] + ([QUOTE] + t) == [QUOTE] + t && ([QUOTE] + t)[1..] == t;
    } else {
      FirstChar(cs, [QUOTE] + t);
      hide LiteralText, LiteralEnd, IsLiteral, CharText;
      CharInLiteral(cs[0], LiteralText(cs[1..]) + ([QUOTE] + t));
      LiteralEnds(cs[1..], t);
    }
  }

  lemma QuotedMinifies(cs: seq<Char>, t: seq<byte>)
    requires IsLiteral(cs)
    ensures Minify([34] + (LiteralText(cs) + [34]) + t) == Before([34] + (LiteralText(cs) + [34]), Minify(t))
  {
    hide LiteralText, LiteralEnd, IsLiteral, Minify;
    var p := [34] + (LiteralText(cs) + [34]);
    LiteralEnds(cs, t);
    InsideOut([34], LiteralText(cs), [34], t);
    LiteralMinifies(LiteralText(cs) + ([34] + t), p, t);
  }

  lemma LiteralMinifies(inside: seq<byte>, p: seq<byte>, t: seq<byte>)
    requires LiteralEnd(inside) == Rest(t) && p + t == [34] + inside
    ensures Minify(p + t) == Before(p, Minify(t))
  {
    hide LiteralEnd;
    assert ([34] + inside)[1..] == inside && (p + t)[..|p + t| - |t|] == p;
  }

  lemma {:induction false} DigitsArePlain(ds: seq<int>)
    requires AreDigits(ds)
    ensures IsPlain(DigitsText(ds))
  {
    if ds != [] {
      DigitsArePlain(ds[1..]);
    }
  }

  lemma NumeralMinifies(x: Numeral, t: seq<byte>)
    requires IsNumeral(x)
    ensures Minify(NumeralText(x) + t) == Before(NumeralText(x), Minify(t))
  {
    DigitsArePlain(x.digits);
    MinifyPlain(NumeralText(x), t);
  }

  // ---------- forms ----------

  /** A form without its comments and white space. */
  function Stripped(f: Form): Form {
    match f
    case List(gap, slots) => List(Kept(gap), StrippedSlots(slots))
    case Record(gap, fields) => Record(Kept(gap), StrippedFields(fields))
    case _ => f
  }

  function StrippedSlot(s: Slot): Slot {
    Slot(Kept(s.before), Stripped(s.form), Kept(s.after))
  }

  function StrippedSlots(slots: seq<Slot>): seq<Slot> {
    if slots == [] then [] else [StrippedSlot(slots[0])] + StrippedSlots(slots[1..])
  }

  function StrippedField(d: Field): Field {
    Field(Kept(d.before), d.name, Kept(d.beforeColon), Kept(d.afterColon), Stripped(d.form), Kept(d.after))
  }

  function StrippedFields(fields: seq<Field>): seq<Field> {
    if fields == [] then [] else [StrippedField(fields[0])] + StrippedFields(fields[1..])
  }

  /** It means the same, and has no comments. */
  lemma {:induction false} StrippedMeans(f: Form)
    requires IsForm(f)
    ensures IsForm(Stripped(f)) && IsBare(Stripped(f)) && IsShut(Stripped(f)) == IsShut(f)
    ensures Meaning(Stripped(f)) == Meaning(f)
    decreases f, 1
  {
    match f
    case List(gap, slots) => KeptIsGap(gap); StrippedSlotsMean(slots);
    case Record(gap, fields) => KeptIsGap(gap); StrippedFieldsMean(fields);
    case _ =>
  }

  lemma {:induction false} StrippedSlotsMean(slots: seq<Slot>)
    requires AreSlots(slots)
    ensures var ss := StrippedSlots(slots);
      |ss| == |slots| && AreSlots(ss) && AreBareSlots(ss) && Meanings(ss) == Meanings(slots)
    decreases slots, 0
  {
    if slots != [] {
      var s, ss := StrippedSlot(slots[0]), StrippedSlots(slots[1..]);
      SlotsMean(slots);
      StrippedMeans(slots[0].form);
      StrippedSlotsMean(slots[1..]);
      KeptIsGap(slots[0].before);
      KeptIsGap(slots[0].after);
      hide Meanings, Meaning, IsForm, IsBare, Stripped;
      assert ([s] + ss)[1..] == ss && StrippedSlots(slots) == [s] + ss;
      assert AreSlots([s] + ss);
      SlotsMean([s] + ss);
    }
  }

  lemma {:induction false} StrippedFieldsMean(fields: seq<Field>)
    requires AreFields(fields)
    ensures var ds := StrippedFields(fields);
      |ds| == |fields| && AreFields(ds) && AreBareFields(ds) && MembersMeant(ds) == MembersMeant(fields)
    decreases fields, 0
  {
    if fields != [] {
      var d, ds := StrippedField(fields[0]), StrippedFields(fields[1..]);
      FieldsMean(fields);
      StrippedMeans(fields[0].form);
      StrippedFieldsMean(fields[1..]);
      KeptIsGap(fields[0].before);
      KeptIsGap(fields[0].beforeColon);
      KeptIsGap(fields[0].afterColon);
      KeptIsGap(fields[0].after);
      hide MembersMeant, Meaning, LiteralMeaning, IsForm, IsBare, Stripped, Kept;
      assert ([d] + ds)[1..] == ds && StrippedFields(fields) == [d] + ds;
      assert AreFields([d] + ds);
      FieldsMean([d] + ds);
    }
  }

  /** Minifying a form leaves the stripped form, and what follows is minified on its own. */
  lemma {:induction false} FormMinifies(f: Form, t: seq<byte>)
    requires IsForm(f) && IsShut(f)
    ensures IsForm(Stripped(f)) && Minify(FormText(f) + t) == Before(FormText(Stripped(f)), Minify(t))
    decreases f, 3
  {
    StrippedMeans(f);
    hide Minify;
    match f
    case NullWord => MinifyPlain(NULL_TEXT, t);
    case FalseWord => MinifyPlain(FALSE_TEXT, t);
    case TrueWord => MinifyPlain(TRUE_TEXT, t);
    case Numeric(x) => NumeralMinifies(x, t);
    case Quoted(chars, closed) => QuotedMinifies(chars, t);
    case List(gap, slots) => ListMinifies(gap, slots, t);
    case Record(gap, fields) => RecordMinifies(gap, fields, t);
  }

  lemma {:induction false} ListMinifies(gap: seq<Filler>, slots: seq<Slot>, t: seq<byte>)
    requires IsForm(List(gap, slots)) && IsForm(List(Kept(gap), StrippedSlots(slots)))
    ensures Minify(FormText(List(gap, slots)) + t)
         == Before(FormText(List(Kept(gap), StrippedSlots(slots))), Minify(t))
    decreases slots, 2
  {
    var inside, inside' := SlotsText(slots), SlotsText(StrippedSlots(slots));
    var body := inside + ([93] + t);
    hide Minify, SlotsText, FormText, GapText, StrippedSlots, Kept;
    ListText(List(gap, slots), [91] + (GapText(gap) + body), t);
    ListIs(List(Kept(gap), StrippedSlots(slots)));
    MinifyPlain([91], GapText(gap) + body);
    GapMinifies(gap, body);
    SlotsMinify(slots, [93] + t);
    MinifyPlain([93], t);
    BeforeFour([91], GapText(Kept(gap)), inside', [93], Minify(t));
  }

  lemma ListIs(f: Form)
    requires f.List? && IsForm(f)
    ensures FormText(f) == [91] + (GapText(f.gap) + (SlotsText(f.slots) + [93]))
  {
    hide GapText, SlotsText;
  }

  lemma RecordIs(f: Form)
    requires f.Record? && IsForm(f)
    ensures FormText(f) == [123] + (GapText(f.gap) + (FieldsText(f.fields) + [125]))
  {
    hide GapText, FieldsText;
  }

  lemma BeforeFour(a: seq<byte>, b: seq<byte>, c: seq<byte>, d: seq<byte>, m: Minified)
    ensures Before(a, Before(b, Before(c, Before(d, m)))) == Before(a + (b + (c + d)), m)
  {
    BeforeBefore(c, d, m);
    BeforeBefore(b, c + d, m);
    BeforeBefore(a, b + (c + d), m);
  }

  lemma {:induction false} SlotsMinify(slots: seq<Slot>, t: seq<byte>)
    requires AreSlots(slots) && AreSlots(StrippedSlots(slots))
    ensures Minify(SlotsText(slots) + t) == Before(SlotsText(StrippedSlots(slots)), Minify(t))
    decreases slots, 1
  {
    hide Minify, FormText, GapText;
    if slots == [] {
      assert [] + t == t;
      BeforeNothing(Minify(t));
    } else {
      var s, ss := slots[0], StrippedSlots(slots);
      StrippedSlotsAre(slots);
      SlotsSplit(slots, t);
      SlotsStep(ss);
      hide SlotsText, StrippedSlots;
      var more := SlotsTail(slots, t);
      assert IsSlot(s) && IsSlot(ss[0]);
      GapMinifies(s.before, SlotThen(s, more));
      FormMinifies(s.form, GapText(s.after) + more);
      GapMinifies(s.after, more);
      if |slots| == 1 {
        BeforeAll(GapText(ss[0].before), FormText(ss[0].form), GapText(ss[0].after), Minify(t));
      } else {
        var rest := SlotsText(slots[1..]) + t;
        MinifyPlain([44], rest);
        SlotsMinify(slots[1..], t);
        BeforeBefore([44], SlotsText(ss[1..]), Minify(t));
        BeforeAll(GapText(ss[0].before), FormText(ss[0].form), GapText(ss[0].after),
                     Before([44] + SlotsText(ss[1..]), Minify(t)));
        BeforeBefore(SlotText(ss[0]), [44] + SlotsText(ss[1..]), Minify(t));
      }
    }
  }

  lemma BeforeAll(a: seq<byte>, b: seq<byte>, c: seq<byte>, m: Minified)
    ensures Before(a, Before(b, Before(c, m))) == Before(a + (b + c), m)
  {
    BeforeBefore(b, c, m);
    BeforeBefore(a, b + c, m);
  }

  lemma StrippedSlotsAre(slots: seq<Slot>)
    requires slots != [] && AreSlots(slots)
    ensures var ss := StrippedSlots(slots);
      |ss| == |slots| && AreSlots(ss) && ss[0] == StrippedSlot(slots[0]) && ss[1..] == StrippedSlots(slots[1..])
  {
    StrippedSlotsMean(slots);
    hide AreSlots;
  }

  lemma {:induction false} RecordMinifies(gap: seq<Filler>, fields: seq<Field>, t: seq<byte>)
    requires IsForm(Record(gap, fields)) && IsForm(Record(Kept(gap), StrippedFields(fields)))
    ensures Minify(FormText(Record(gap, fields)) + t)
         == Before(FormText(Record(Kept(gap), StrippedFields(fields))), Minify(t))
    decreases fields, 2
  {
    var inside, inside' := FieldsText(fields), FieldsText(StrippedFields(fields));
    var body := inside + ([125] + t);
    hide Minify, FieldsText, FormText, GapText, StrippedFields, Kept;
    RecordText(Record(gap, fields), [123] + (GapText(gap) + body), t);
    RecordIs(Record(Kept(gap), StrippedFields(fields)));
    MinifyPlain([123], GapText(gap) + body);
    GapMinifies(gap, body);
    FieldsMinify(fields, [125] + t);
    MinifyPlain([125], t);
    BeforeFour([123], GapText(Kept(gap)), inside', [125], Minify(t));
  }

  lemma StrippedFieldsAre(fields: seq<Field>)
    requires fields != [] && AreFields(fields)
    ensures var ds := StrippedFields(fields);
      && |ds| == |fields| && AreFields(ds) && ds[0] == StrippedField(fields[0])
      && ds[1..] == StrippedFields(fields[1..])
  {
    StrippedFieldsMean(fields);
    hide AreFields;
  }

  lemma {:induction false} FieldMinifies(d: Field, more: seq<byte>)
    requires IsField(d) && IsField(StrippedField(d))
    ensures Minify(GapText(d.before) + FieldThen(d, more)) == Before(FieldText(StrippedField(d)), Minify(more))
    decreases d, 4
  {
    var d' := StrippedField(d);
    var after := GapText(d.after) + more;
    var value := FormText(d.form) + after;
    var colon := [58] + (GapText(d.afterColon) + value);
    var named := GapText(d.beforeColon) + colon;
    hide Minify, FormText, GapText, LiteralText;
    QuotedMinifies(d.name, named);
    GapMinifies(d.before, FieldThen(d, more));
    GapMinifies(d.beforeColon, colon);
    MinifyPlain([58], GapText(d.afterColon) + value);
    GapMinifies(d.afterColon, value);
    FormMinifies(d.form, after);
    GapMinifies(d.after, more);
    var m := Minify(more);
    hide NameText;
    var inner := FormText(d'.form) + GapText(d'.after);
    BeforeBefore(FormText(d'.form), GapText(d'.after), m);
    BeforeFour(GapText(d'.beforeColon), [58], GapText(d'.afterColon), inner, m);
    BeforeAll(GapText(d'.before), NameText(d.name),
              GapText(d'.beforeColon) + ([58] + (GapText(d'.afterColon) + inner)), m);
  }

  lemma {:induction false} FieldsMinify(fields: seq<Field>, t: seq<byte>)
    requires AreFields(fields) && AreFields(StrippedFields(fields))
    ensures Minify(FieldsText(fields) + t) == Before(FieldsText(StrippedFields(fields)), Minify(t))
    decreases fields, 1
  {
    hide Minify, FieldText, FieldThen, GapText;
    if fields == [] {
      assert [] + t == t;
      BeforeNothing(Minify(t));
    } else {
      var d, ds := fields[0], StrippedFields(fields);
      StrippedFieldsAre(fields);
      FieldsSplit(fields, t);
      FieldsStep(ds);
      hide FieldsText, StrippedFields, StrippedField;
      FieldMinifies(d, FieldsTail(fields, t));
      if |fields| > 1 {
        MinifyPlain([44], FieldsText(fields[1..]) + t);
        FieldsMinify(fields[1..], t);
        BeforeBefore([44], FieldsText(ds[1..]), Minify(t));
        BeforeBefore(FieldText(ds[0]), [44] + FieldsText(ds[1..]), Minify(t));
      }
    }
  }

  // ---------- whole texts ----------

  /** Gaps with any comments around and inside a form: the minifier leaves the form without them, the parser reads
      that as what the form means, and nothing stands behind it. */
  lemma CommentsDoNotMatter(before: seq<Filler>, f: Form, after: seq<Filler>)
    requires IsGap(before) && IsForm(f) && IsShut(f) && IsGap(after)
    ensures IsForm(Stripped(f))
    ensures Minify(GapText(before) + (FormText(f) + GapText(after)))
         == Text(GapText(Kept(before)) + (FormText(Stripped(f)) + GapText(Kept(after))))
    ensures ParseText(GapText(Kept(before)) + (FormText(Stripped(f)) + GapText(Kept(after))), true)
         == Ok(Meaning(f), [])
  {
    StrippedMeans(f);
    var b, a, g := GapText(Kept(before)), GapText(Kept(after)), FormText(Stripped(f));
    hide Minify, FormText, GapText;
    GapMinifies(before, FormText(f) + GapText(after));
    FormMinifies(f, GapText(after));
    GapMinifies(after, []);
    assert GapText(after) + [] == GapText(after);
    NothingMinifies();
    BeforeAll(b, g, a, Text([]));
    assert b + (g + a) + [] == b + (g + a);
    KeptIsGap(before);
    KeptIsGap(after);
    FormIsText(Kept(before), Stripped(f), Kept(after));
  }

  lemma NothingMinifies()
    ensures Minify([]) == Text([])
  {
  }
}
