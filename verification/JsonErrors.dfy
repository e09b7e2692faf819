/** Where the parser fails: behind everything that can be read as the beginning of a form, at the first byte that
    cannot go on there. */
module JsonErrors {
  import opened Bytes
  import opened JsonText
  import opened JsonRoundTrip
  import opened JsonTokens
  import opened JsonGrammar

  /** A form that has been begun: items or members that are done, a comma behind each, and what stands behind them
      and is wanted next: a value, a comma or the bracket, a name, a colon. */
  datatype Begun =
    | Value
    | Item(items: seq<Slot>, before: seq<Filler>, inner: Begun)
    | ItemEnd(items: seq<Slot>, before: seq<Filler>, form: Form, after: seq<Filler>)
    | Name(members: seq<Field>, before: seq<Filler>)
    | Colon(members: seq<Field>, before: seq<Filler>, name: Form, after: seq<Filler>)
    | MemberValue(members: seq<Field>, before: seq<Filler>, chars: seq<Char>, beforeColon: seq<Filler>,
                  afterColon: seq<Filler>, inner: Begun)
    | MemberEnd(members: seq<Field>, before: seq<Filler>, chars: seq<Char>, beforeColon: seq<Filler>,
                afterColon: seq<Filler>, form: Form, after: seq<Filler>)

  predicate IsBlanks(gap: seq<Filler>) {
    IsGap(gap) && AreBlanks(gap)
  }

  predicate AreItems(slots: seq<Slot>) {
    AreSlots(slots) && AreBareSlots(slots)
  }

  predicate AreMembers(fields: seq<Field>) {
    AreFields(fields) && AreBareFields(fields)
  }

  predicate IsBareForm(f: Form) {
    IsForm(f) && IsBare(f)
  }

  predicate IsBegun(b: Begun) {
    match b
    case Value => true
    case Item(items, before, inner) => AreItems(items) && IsBlanks(before) && IsBegun(inner)
    case ItemEnd(items, before, form, after) =>
      AreItems(items) && IsBlanks(before) && IsBareForm(form) && IsBlanks(after)
    case Name(members, before) => AreMembers(members) && IsBlanks(before)
    case Colon(members, before, name, after) =>
      AreMembers(members) && IsBlanks(before) && name.Quoted? && IsForm(name) && IsBlanks(after)
    case MemberValue(members, before, chars, beforeColon, afterColon, inner) =>
      AreMembers(members) && IsBlanks(before) && IsLiteral(chars) && IsBlanks(beforeColon) && IsBlanks(afterColon)
      && IsBegun(inner)
    case MemberEnd(members, before, chars, beforeColon, afterColon, form, after) =>
      AreMembers(members) && IsBlanks(before) && IsLiteral(chars) && IsBlanks(beforeColon) && IsBlanks(afterColon)
      && IsBareForm(form) && IsBlanks(after)
  }

  function ItemsText(items: seq<Slot>): seq<byte>
    requires AreSlots(items)
  {
    if items == [] then [] else SlotsStep(items); SlotText(items[0]) + ([44] + ItemsText(items[1..]))
  }

  function MembersText(members: seq<Field>): seq<byte>
    requires AreFields(members)
  {
    if members == [] then [] else FieldsStep(members); FieldText(members[0]) + ([44] + MembersText(members[1..]))
  }

  function BegunText(b: Begun): seq<byte>
    requires IsBegun(b)
  {
    match b
    case Value => []
    case Item(items, before, inner) => [91] + (ItemsText(items) + (GapText(before) + BegunText(inner)))
    case ItemEnd(items, before, form, after) =>
      [91] + (ItemsText(items) + (GapText(before) + (FormText(form) + GapText(after))))
    case Name(members, before) => [123] + (MembersText(members) + GapText(before))
    case Colon(members, before, name, after) =>
      [123] + (MembersText(members) + (GapText(before) + (FormText(name) + GapText(after))))
    case MemberValue(members, before, chars, beforeColon, afterColon, inner) =>
      [123] + (MembersText(members) + (GapText(before) + (NameText(chars) + (GapText(beforeColon)
        + ([58] + (GapText(afterColon) + BegunText(inner)))))))
    case MemberEnd(members, before, chars, beforeColon, afterColon, form, after) =>
      [123] + (MembersText(members) + (GapText(before) + (NameText(chars) + (GapText(beforeColon)
        + ([58] + (GapText(afterColon) + (FormText(form) + GapText(after))))))))
  }

  /** A text that starts with no value. */
  predicate StartsNoValue(t: seq<byte>) {
    && At(t, 0) !in {34, 45, 91, 123} && !(48 <= At(t, 0) <= 57)
    && !([110, 117, 108, 108] <= t) && !([102, 97, 108, 115, 101] <= t) && !([116, 114, 117, 101] <= t)
  }

  /** What comes cannot go on there. */
  predicate IsStuck(b: Begun, at: seq<byte>) {
    match b
    case Value => StartsNoValue(at)
    case Item(_, _, inner) => IsStuck(inner, at)
    case ItemEnd(_, _, _, _) => At(at, 0) !in {44, 93}
    case Name(_, _) => At(at, 0) != 34
    case Colon(_, _, _, _) => At(at, 0) != 58
    case MemberValue(_, _, _, _, _, inner) => IsStuck(inner, at)
    case MemberEnd(_, _, _, _, _, _, _) => At(at, 0) !in {44, 125}
  }

  lemma {:induction false} StuckAt(t: seq<byte>) returns (b: Begun)
    requires ParseValue(t).Fail?
    ensures IsBegun(b) && t == BegunText(b) + ParseValue(t).at && IsStuck(b, ParseValue(t).at)
    decreases |t|, 2
  {
    if At(t, 0) == OPEN_BRACKET {
      ParseValueOfArray(t);
      hide ParseValue, ParseArray, BegunText, IsStuck, IsBegun;
      b := StuckInArray(t);
    } else if At(t, 0) == OPEN_BRACE {
      ParseValueOfObject(t);
      hide ParseValue, ParseObject, BegunText, IsStuck, IsBegun;
      b := StuckInObject(t);
    } else {
      b := Value;
      hide ParseArray, ParseObject;
      NoValueFails(t);
    }
  }

  lemma NoValueFails(t: seq<byte>)
    requires ParseValue(t).Fail? && At(t, 0) !in {91, 123}
    ensures ParseValue(t) == Fail(t) && StartsNoValue(t)
  {
    hide ParseArray, ParseObject, Unescape;
  }

  lemma {:induction false} StuckInArray(t: seq<byte>) returns (b: Begun)
    requires At(t, 0) == OPEN_BRACKET && ParseArray(t).Fail?
    ensures IsBegun(b) && t == BegunText(b) + ParseArray(t).at && IsStuck(b, ParseArray(t).at)
    decreases |t|, 1
  {
    ArrayFails(t);
    hide ParseArray, ParseItems, IsStuck, BegunText, IsBegun;
    b := StuckInItems(t[1..]);
    assert t == [91] + t[1..];
  }

  lemma ArrayFails(t: seq<byte>)
    requires At(t, 0) == OPEN_BRACKET && ParseArray(t).Fail?
    ensures ParseItems(t[1..]) == Fail(ParseArray(t).at)
  {
    hide ParseItems, Skip;
    ParseItemsFromSkip(t[1..]);
  }

  /** How the items of an array fail: in a value, behind one, or behind a comma. */
  lemma ItemsFail(t: seq<byte>)
    requires ParseItems(t).Fail?
    ensures var v := ParseValue(Skip(t));
      && !v.Outside?
      && (v.Fail? ==> v.at == ParseItems(t).at)
      && (v.Ok? ==>
            var next := Skip(v.rest);
            && At(next, 0) != CLOSE_BRACKET
            && (At(next, 0) == COMMA ==> ParseItems(next[1..]) == Fail(ParseItems(t).at))
            && (At(next, 0) != COMMA ==> next == ParseItems(t).at))
  {
    hide ParseValue, Skip;
  }

  /** A begun array with an item in front of those that are done. */
  function WithItem(b: Begun, s: Slot): Begun
    requires b.Item? || b.ItemEnd?
  {
    b.(items := [s] + b.items)
  }

  lemma ItemInFront(b: Begun, s: Slot, at: seq<byte>)
    requires (b.Item? || b.ItemEnd?) && IsBegun(b) && IsSlot(s) && IsBareSlot(s)
    ensures IsBegun(WithItem(b, s)) && (WithItem(b, s).Item? || WithItem(b, s).ItemEnd?)
    ensures BegunText(b) != [] && BegunText(WithItem(b, s)) == [91] + (SlotText(s) + ([44] + BegunText(b)[1..]))
    ensures IsStuck(WithItem(b, s), at) == IsStuck(b, at)
  {
    hide SlotText, GapText, FormText;
    var items := [s] + b.items;
    assert items[1..] == b.items && AreItems(items);
    assert ItemsText(items) == SlotText(s) + ([44] + ItemsText(b.items));
    hide ItemsText, IsStuck;
    match b
    case Item(_, before, inner) =>
      var rest := GapText(before) + BegunText(inner);
      assert BegunText(b)[1..] == ItemsText(b.items) + rest;
      InFront(SlotText(s), ItemsText(b.items), rest);
      StuckInside(b, s, at);
    case ItemEnd(_, before, form, after) =>
      var rest := GapText(before) + (FormText(form) + GapText(after));
      assert BegunText(b)[1..] == ItemsText(b.items) + rest;
      InFront(SlotText(s), ItemsText(b.items), rest);
      StuckInside(b, s, at);
  }

  lemma InFront(a: seq<byte>, b: seq<byte>, c: seq<byte>)
    ensures a + ([44] + b) + c == a + ([44] + (b + c))
  {
  }

  lemma StuckInside(b: Begun, s: Slot, at: seq<byte>)
    requires b.Item? || b.ItemEnd?
    ensures IsStuck(WithItem(b, s), at) == IsStuck(b, at)
  {
  }

  lemma {:induction false} StuckInItems(t: seq<byte>) returns (b: Begun)
    requires ParseItems(t).Fail?
    ensures (b.Item? || b.ItemEnd?) && IsBegun(b) && [91] + t == BegunText(b) + ParseItems(t).at
    ensures IsStuck(b, ParseItems(t).at)
    decreases |t|, 4
  {
    ItemsFail(t);
    hide ParseItems, ParseValue, Skip, GapText, FormText, BegunText, IsStuck, SlotText, SlotThen, IsBegun, IsForm;
    hide IsBare, Meaning, WithItem;
    var at := ParseItems(t).at;
    if ParseValue(Skip(t)).Fail? {
      var before := GapOf(t);
      var inner := StuckAt(Skip(t));
      b := Item([], before, inner);
      FirstItem(before, inner, at);
    } else {
      var next := Skip(ParseValue(Skip(t)).rest);
      if At(next, 0) == COMMA {
        var s := SlotOf(t, next);
        var more := StuckInItems(next[1..]);
        ItemInFront(more, s, at);
        b := WithItem(more, s);
        SlotAndMore(s, next);
        CommaBehind(91, SlotText(s), BegunText(more), next, at);
      } else {
        b := StuckBehindItem(t);
      }
    }
  }

  lemma FirstItem(before: seq<Filler>, inner: Begun, at: seq<byte>)
    requires IsBlanks(before) && IsBegun(inner) && IsStuck(inner, at)
    ensures var b := Item([], before, inner);
      IsBegun(b) && IsStuck(b, at) && [91] + (GapText(before) + (BegunText(inner) + at)) == BegunText(b) + at
  {
    hide GapText;
    Behind(GapText(before), BegunText(inner), at);
  }

  lemma {:induction false} StuckBehindItem(t: seq<byte>) returns (b: Begun)
    requires ParseValue(Skip(t)).Ok? && At(Skip(ParseValue(Skip(t)).rest), 0) !in {COMMA, CLOSE_BRACKET}
    ensures b.ItemEnd? && IsBegun(b) && [91] + t == BegunText(b) + Skip(ParseValue(Skip(t)).rest)
    ensures IsStuck(b, Skip(ParseValue(Skip(t)).rest))
  {
    hide ParseValue, Skip, GapText, FormText;
    var after := ParseValue(Skip(t)).rest;
    var before := GapOf(t);
    var form := FormOf(Skip(t));
    var gap := GapOf(after);
    b := ItemEnd([], before, form, gap);
    assert ItemsText([]) == [];
    EndBehind(GapText(before), FormText(form), GapText(gap), Skip(after));
  }

  lemma Behind(a: seq<byte>, b: seq<byte>, at: seq<byte>)
    ensures [91] + (a + (b + at)) == [91] + ([] + (a + b)) + at
    ensures [123] + (a + (b + at)) == [123] + ([] + (a + b)) + at
  {
  }

  lemma EndBehind(a: seq<byte>, b: seq<byte>, c: seq<byte>, at: seq<byte>)
    ensures [91] + (a + (b + (c + at))) == [91] + ([] + (a + (b + c))) + at
    ensures [123] + (a + (b + (c + at))) == [123] + ([] + (a + (b + c))) + at
  {
  }

  /** t is a slot and a comma with what is begun behind it. */
  lemma CommaBehind(open: byte, s: seq<byte>, begun: seq<byte>, next: seq<byte>, at: seq<byte>)
    requires begun != [] && next != [] && next[0] == 44 && [open] + next[1..] == begun + at
    ensures [open] + (s + next) == [open] + (s + ([44] + begun[1..])) + at
  {
    assert (begun + at)[1..] == begun[1..] + at;
    assert ([open] + next[1..])[1..] == next[1..];
    assert next == [44] + (begun[1..] + at);
  }

  lemma {:induction false} StuckInObject(t: seq<byte>) returns (b: Begun)
    requires At(t, 0) == OPEN_BRACE && ParseObject(t).Fail?
    ensures IsBegun(b) && t == BegunText(b) + ParseObject(t).at && IsStuck(b, ParseObject(t).at)
    decreases |t|, 1
  {
    ObjectFails(t);
    hide ParseObject, ParseMembers, IsStuck, BegunText, IsBegun;
    b := StuckInMembers(t[1..]);
    assert t == [123] + t[1..];
  }

  lemma ObjectFails(t: seq<byte>)
    requires At(t, 0) == OPEN_BRACE && ParseObject(t).Fail?
    ensures ParseMembers(t[1..]) == Fail(ParseObject(t).at)
  {
    hide ParseMembers, Skip;
    ParseMembersFromSkip(t[1..]);
  }

  lemma MembersFail(t: seq<byte>)
    requires ParseMembers(t).Fail?
    ensures var m := ParseMember(t);
      && !m.Outside?
      && (m.Fail? ==> m.at == ParseMembers(t).at)
      && (m.Ok? ==>
            var next := Skip(m.rest);
            && At(next, 0) != CLOSE_BRACE
            && (At(next, 0) == COMMA ==> ParseMembers(next[1..]) == Fail(ParseMembers(t).at))
            && (At(next, 0) != COMMA ==> next == ParseMembers(t).at))
  {
    hide ParseMember, Skip;
  }

  /** How a member fails: at its name, its colon or in its value. */
  lemma MemberFails(t: seq<byte>)
    requires ParseMember(t).Fail?
    ensures var name := ParseString(Skip(t));
      && !name.Outside?
      && (name.Fail? ==> ParseMember(t).at == Skip(t) && At(Skip(t), 0) != QUOTE)
      && (name.Ok? ==>
            var colon := Skip(name.rest);
            && At(Skip(t), 0) == QUOTE
            && (At(colon, 0) != COLON ==> ParseMember(t).at == colon)
            && (At(colon, 0) == COLON ==> ParseValue(Skip(colon[1..])) == Fail(ParseMember(t).at)))
  {
    hide ParseValue, Skip, Unescape;
  }

  predicate IsInObject(b: Begun) {
    b.Name? || b.Colon? || b.MemberValue? || b.MemberEnd?
  }

  function WithMember(b: Begun, d: Field): Begun
    requires IsInObject(b)
  {
    b.(members := [d] + b.members)
  }

  lemma MemberInFront(b: Begun, d: Field, at: seq<byte>)
    requires IsInObject(b) && IsBegun(b) && IsField(d) && IsBareField(d)
    ensures IsBegun(WithMember(b, d)) && IsInObject(WithMember(b, d))
    ensures BegunText(b) != [] && BegunText(WithMember(b, d)) == [123] + (FieldText(d) + ([44] + BegunText(b)[1..]))
    ensures IsStuck(WithMember(b, d), at) == IsStuck(b, at)
  {
    hide FieldText, GapText, FormText, NameText;
    var members := [d] + b.members;
    assert members[1..] == b.members && AreMembers(members);
    assert MembersText(members) == FieldText(d) + ([44] + MembersText(b.members));
    hide MembersText;
    var rest := AfterMembers(b);
    assert BegunText(b) == [123] + (MembersText(b.members) + rest);
    assert BegunText(WithMember(b, d)) == [123] + (MembersText(members) + rest);
    hide BegunText, AfterMembers;
    assert BegunText(b)[1..] == MembersText(b.members) + rest;
    InFront(FieldText(d), MembersText(b.members), rest);
    StuckInMember(b, d, at);
    hide IsStuck;
  }

  lemma StuckInMember(b: Begun, d: Field, at: seq<byte>)
    requires IsInObject(b)
    ensures IsStuck(WithMember(b, d), at) == IsStuck(b, at)
  {
  }

  /** What stands behind the members that are done. */
  function AfterMembers(b: Begun): seq<byte>
    requires IsInObject(b) && IsBegun(b)
  {
    match b
    case Name(_, before) => GapText(before)
    case Colon(_, before, name, after) => GapText(before) + (FormText(name) + GapText(after))
    case MemberValue(_, before, chars, beforeColon, afterColon, inner) =>
      GapText(before) + (NameText(chars) + (GapText(beforeColon) + ([58] + (GapText(afterColon) + BegunText(inner)))))
    case MemberEnd(_, before, chars, beforeColon, afterColon, form, after) =>
      GapText(before) + (NameText(chars) + (GapText(beforeColon) + ([58] + (GapText(afterColon)
        + (FormText(form) + GapText(after))))))
  }

  lemma {:induction false} StuckInMembers(t: seq<byte>) returns (b: Begun)
    requires ParseMembers(t).Fail?
    ensures IsInObject(b) && IsBegun(b) && [123] + t == BegunText(b) + ParseMembers(t).at
    ensures IsStuck(b, ParseMembers(t).at)
    decreases |t|, 4
  {
    MembersFail(t);
    hide ParseMembers, ParseMember, Skip, BegunText, IsStuck, FieldText, FieldThen, GapText, IsBegun, IsForm, IsBare;
    hide Meaning, LiteralMeaning, WithMember;
    var at := ParseMembers(t).at;
    if ParseMember(t).Fail? {
      b := StuckInMemberAt(t);
    } else {
      var next := Skip(ParseMember(t).rest);
      if At(next, 0) == COMMA {
        var d := FieldOf(t, next);
        var more := StuckInMembers(next[1..]);
        MemberInFront(more, d, at);
        b := WithMember(more, d);
        FieldAndMore(d, next);
        CommaBehind(123, FieldText(d), BegunText(more), next, at);
      } else {
        b := StuckBehindMember(t);
      }
    }
  }

  lemma {:induction false} StuckInMemberAt(t: seq<byte>) returns (b: Begun)
    requires ParseMember(t).Fail?
    ensures IsInObject(b) && IsBegun(b) && [123] + t == BegunText(b) + ParseMember(t).at
    ensures IsStuck(b, ParseMember(t).at)
    decreases |t|, 3
  {
    MemberFails(t);
    hide ParseMember, ParseValue, ParseString, Skip, GapText, FormText, NameText, BegunText, IsStuck, IsBegun, IsForm;
    hide IsBare, LiteralMeaning, IsLiteral;
    var before := GapOf(t);
    var at := ParseMember(t).at;
    if ParseString(Skip(t)).Fail? {
      b := Name([], before);
      NoName(before, at);
    } else {
      var named := ParseString(Skip(t)).rest;
      var colon := Skip(named);
      if At(colon, 0) != COLON {
        var name := QuotedOf(Skip(t));
        var after := GapOf(named);
        b := Colon([], before, name, after);
        NoColon(before, name, after, at);
      } else {
        var chars, beforeColon := NameOf(Skip(t));
        var afterColon := GapOf(colon[1..]);
        var inner := StuckAt(Skip(colon[1..]));
        b := MemberValue([], before, chars, beforeColon, afterColon, inner);
        NoMemberValue(b, colon, at);
      }
    }
  }

  lemma NoName(before: seq<Filler>, at: seq<byte>)
    requires IsBlanks(before) && At(at, 0) != 34
    ensures var b := Name([], before);
      IsBegun(b) && IsStuck(b, at) && [123] + (GapText(before) + at) == BegunText(b) + at
  {
    hide GapText;
    assert [123] + ([] + GapText(before)) + at == [123] + (GapText(before) + at);
  }

  lemma NoColon(before: seq<Filler>, name: Form, after: seq<Filler>, at: seq<byte>)
    requires IsBlanks(before) && name.Quoted? && IsForm(name) && IsBlanks(after) && At(at, 0) != 58
    ensures var b := Colon([], before, name, after);
      && IsBegun(b) && IsStuck(b, at)
      && [123] + (GapText(before) + (FormText(name) + (GapText(after) + at))) == BegunText(b) + at
  {
    hide GapText, FormText;
    EndBehind(GapText(before), FormText(name), GapText(after), at);
  }

  lemma NoMemberValue(b: Begun, colon: seq<byte>, at: seq<byte>)
    requires b.MemberValue? && b.members == [] && IsBlanks(b.before) && IsLiteral(b.chars) && IsBlanks(b.beforeColon)
    requires IsBlanks(b.afterColon) && IsBegun(b.inner) && IsStuck(b.inner, at) && colon != [] && colon[0] == 58
    requires colon[1..] == GapText(b.afterColon) + (BegunText(b.inner) + at)
    ensures IsBegun(b) && IsStuck(b, at)
    ensures [123] + (GapText(b.before) + (NameText(b.chars) + (GapText(b.beforeColon) + colon))) == BegunText(b) + at
  {
    hide GapText, NameText;
    ColonBehind(GapText(b.before), NameText(b.chars), GapText(b.beforeColon), colon, GapText(b.afterColon),
                BegunText(b.inner), at);
  }

  lemma ColonBehind(a: seq<byte>, b: seq<byte>, c: seq<byte>, colon: seq<byte>, d: seq<byte>, e: seq<byte>,
                    at: seq<byte>)
    requires colon != [] && colon[0] == 58 && colon[1..] == d + (e + at)
    ensures [123] + (a + (b + (c + colon))) == [123] + ([] + (a + (b + (c + ([58] + (d + e)))))) + at
  {
    assert colon == [58] + (d + (e + at));
  }

  lemma {:induction false} StuckBehindMember(t: seq<byte>) returns (b: Begun)
    requires ParseMember(t).Ok? && At(Skip(ParseMember(t).rest), 0) !in {COMMA, CLOSE_BRACE}
    ensures IsInObject(b) && IsBegun(b) && [123] + t == BegunText(b) + Skip(ParseMember(t).rest)
    ensures IsStuck(b, Skip(ParseMember(t).rest))
  {
    hide ParseMember, ParseValue, ParseString, Skip, GapText, FormText, NameText;
    MemberParts(t);
    var before := GapOf(t);
    var colon := Skip(ParseString(Skip(t)).rest);
    var chars, beforeColon := NameOf(Skip(t));
    var afterColon := GapOf(colon[1..]);
    var value := Skip(colon[1..]);
    var form := FormOf(value);
    var after := GapOf(ParseValue(value).rest);
    var at := Skip(ParseMember(t).rest);
    b := MemberEnd([], before, chars, beforeColon, afterColon, form, after);
    assert MembersText([]) == [];
    Assoc(FormText(form), GapText(after), at);
    ColonBehind(GapText(before), NameText(chars), GapText(beforeColon), colon, GapText(afterColon),
                FormText(form) + GapText(after), at);
  }

  /** The place cJSON_Parse reports: behind blanks and a begun form, where what comes cannot go on, or where what
      follows a whole value is not the end of the text. */
  lemma TextFailsWhereStuck(t: seq<byte>, terminated: bool) returns (before: seq<Filler>, b: Begun)
    requires ParseText(t, terminated).Fail? && ParseValue(Skip(t)).Fail?
    ensures IsBlanks(before) && IsBegun(b) && IsStuck(b, ParseText(t, terminated).at)
    ensures t == GapText(before) + (BegunText(b) + ParseText(t, terminated).at)
  {
    hide ParseValue, Skip, GapText, BegunText, IsStuck;
    before := GapOf(t);
    b := StuckAt(Skip(t));
  }

  /** The other case: a whole form, and behind its blanks a byte that is not wanted there. */
  lemma TextFailsBehind(t: seq<byte>, terminated: bool) returns (before: seq<Filler>, f: Form, after: seq<Filler>)
    requires ParseText(t, terminated).Fail? && ParseValue(Skip(t)).Ok?
    ensures terminated && IsBlanks(before) && IsBareForm(f) && IsBlanks(after)
    ensures At(ParseText(t, terminated).at, 0) != 0
    ensures t == GapText(before) + (FormText(f) + (GapText(after) + ParseText(t, terminated).at))
  {
    hide ParseValue, Skip, GapText, FormText;
    before := GapOf(t);
    f := FormOf(Skip(t));
    after := GapOf(ParseValue(Skip(t)).rest);
  }
}
