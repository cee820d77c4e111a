/**
 * End-to-end cases: a message typed in the format the bot expects
 * (`Name: …`, `Phone: …`, `Birthday: DD-MM`, one per line) is stored and then
 * greeted on its day and on no other; the address of an eleven-digit phone;
 * a two-record store on 5 March.
 */
module Scenarios {
  import opened Wrappers
  import opened JsText
  import opened MessageParser
  import opened Birthdays

  /** A value typed after a tag: non-empty, no surrounding blanks, no colon, no line break. */
  predicate PlainValue(v: string) {
    v != "" && IsTrimmed(v) && ':' !in v && '\n' !in v
  }

  /** The line `Tag: value`. */
  function TaggedLine(tag: string, value: string): string {
    tag + ": " + value
  }

  /** The three-line message the owner sends to register a birthday. */
  function ComposedMessage(name: string, phone: string, birthday: string): string {
    TaggedLine("Name", name) + "\n" + TaggedLine("Phone", phone) + "\n" + TaggedLine("Birthday", birthday)
  }

  lemma TaggedLineAsKeyValue(tag: string, value: string)
    ensures TaggedLine(tag, value) == tag + ":" + (" " + value)
  {
    var line := TaggedLine(tag, value);
    assert forall k :: 0 <= k < |line| ==> line[k] == (tag + ":" + (" " + value))[k];
  }

  lemma TrimmedTagAndValue(tag: string, value: string)
    requires IsTrimmed(tag) && IsTrimmed(value) && value != ""
    ensures Trim(tag) == tag && Trim(" " + value) == value
  {
    TrimUnique("", tag, "");
    assert "" + tag + "" == tag;
    TrimUnique(" ", value, "");
    assert " " + value + "" == " " + value;
  }

  /** `Tag: value` contributes the lower-cased tag and the value. */
  lemma TaggedLineEntry(tag: string, key: string, value: string)
    requires tag != "" && ':' !in tag && IsTrimmed(tag) && AsciiLower(tag) == key
    requires value != "" && ':' !in value && IsTrimmed(value)
    ensures LineEntry(TaggedLine(tag, value)) == Some((key, value))
  {
    TaggedLineAsKeyValue(tag, value);
    TrimmedTagAndValue(tag, value);
    var padded := " " + value;
    assert ':' !in padded by {
      assert forall k :: 0 <= k < |padded| ==> padded[k] != ':';
    }
    LineEntryKeyValue(tag, padded);
  }

  /** The three tags lower-case to the keys the handler reads. */
  lemma TagKeys()
    ensures AsciiLower("Name") == "name"
    ensures AsciiLower("Phone") == "phone"
    ensures AsciiLower("Birthday") == "birthday"
  {
    var n := AsciiLower("Name");
    assert n[0] == 'n' && n[1] == 'a' && n[2] == 'm' && n[3] == 'e';
    var p := AsciiLower("Phone");
    assert p[0] == 'p' && p[1] == 'h' && p[2] == 'o' && p[3] == 'n' && p[4] == 'e';
    var b := AsciiLower("Birthday");
    assert b[0] == 'b' && b[1] == 'i' && b[2] == 'r' && b[3] == 't';
    assert b[4] == 'h' && b[5] == 'd' && b[6] == 'a' && b[7] == 'y';
  }

  /** The composed message splits into its three lines. */
  lemma ComposedMessageLines(name: string, phone: string, birthday: string)
    requires '\n' !in name && '\n' !in phone && '\n' !in birthday
    ensures Split(ComposedMessage(name, phone, birthday), '\n') ==
      [TaggedLine("Name", name), TaggedLine("Phone", phone), TaggedLine("Birthday", birthday)]
  {
    var l1, l2, l3 := TaggedLine("Name", name), TaggedLine("Phone", phone), TaggedLine("Birthday", birthday);
    var body := ComposedMessage(name, phone, birthday);
    assert body == l1 + ['\n'] + (l2 + ['\n'] + l3) by {
      assert forall k :: 0 <= k < |body| ==> body[k] == (l1 + ['\n'] + (l2 + ['\n'] + l3))[k];
    }
    assert '\n' !in l1 && '\n' !in l2 && '\n' !in l3;
    SplitCons(l1, '\n', l2 + ['\n'] + l3);
    SplitCons(l2, '\n', l3);
    SplitNone(l3, '\n');
  }

  /** Three lines that contribute the three keys fold to the map of the three entries. */
  lemma ParseThreeLines(l1: string, l2: string, l3: string, name: string, phone: string, birthday: string)
    requires LineEntry(l1) == Some(("name", name))
    requires LineEntry(l2) == Some(("phone", phone))
    requires LineEntry(l3) == Some(("birthday", birthday))
    ensures ParseLines([l1, l2, l3]) == map["name" := name, "phone" := phone, "birthday" := birthday]
  {
    ParseLinesSnoc([], l1);
    ParseLinesSnoc([l1], l2);
    ParseLinesSnoc([l1, l2], l3);
    assert [] + [l1] == [l1] && [l1] + [l2] == [l1, l2] && [l1, l2] + [l3] == [l1, l2, l3];
  }

  /** The three tags of the message format, with the keys they lower-case to. */
  predicate IsTag(tag: string, key: string) {
    || (tag == "Name" && key == "name")
    || (tag == "Phone" && key == "phone")
    || (tag == "Birthday" && key == "birthday")
  }

  /** A tagged line of the message format contributes its key and its value. */
  lemma TagLineEntry(tag: string, key: string, value: string)
    requires IsTag(tag, key) && PlainValue(value)
    ensures LineEntry(TaggedLine(tag, value)) == Some((key, value))
  {
    TagKeys();
    TaggedLineEntry(tag, key, value);
  }

  /** The composed message parses to its three entries under their lower-case keys. */
  lemma ComposedMessageParses(name: string, phone: string, birthday: string)
    requires PlainValue(name) && PlainValue(phone) && PlainValue(birthday)
    ensures Parse(ComposedMessage(name, phone, birthday)) ==
      map["name" := name, "phone" := phone, "birthday" := birthday]
  {
    var l1, l2, l3 := TaggedLine("Name", name), TaggedLine("Phone", phone), TaggedLine("Birthday", birthday);
    ComposedMessageLines(name, phone, birthday);
    TagLineEntry("Name", "name", name);
    TagLineEntry("Phone", "phone", phone);
    TagLineEntry("Birthday", "birthday", birthday);
    ParseThreeLines(l1, l2, l3, name, phone, birthday);
  }

  /** Two digits, a dash and two digits make plain text. */
  lemma DigitsAroundDashPlain(key: string)
    requires |key| == 5 && key[2] == '-' && AllDigits(key[..2]) && AllDigits(key[3..])
    ensures PlainValue(key)
  {
    forall i | 0 <= i < |key|
      ensures IsDigit(key[i]) || key[i] == '-'
    {
      if i < 2 {
        assert key[..2][i] == key[i];
      } else if i > 2 {
        assert key[3..][i - 3] == key[i];
      }
    }
  }

  /** The key of a real date is plain text: digits around a dash. */
  lemma DateKeyPlain(day: nat, month: nat)
    requires 1 <= day <= 31 && 1 <= month <= 12
    ensures PlainValue(DateKey(day, month))
  {
    DateKeyShape(day, month);
    DigitsAroundDashPlain(DateKey(day, month));
  }

  /** A store of one record plans its greeting exactly on its birthday key. */
  lemma PlanOfOne(r: BirthdayRecord, key: string)
    ensures Plan([r], key) == if IsBirthdayOn(r, key) then [Request(r)] else []
  {
    assert [r][..0] == [];
  }

  /**
   * A composed message, once stored, is greeted on the day of its birthday
   * key, at the address built from its phone and by its name, and on no
   * other day.
   */
  lemma ComposedMessageGreetedOnItsDay(name: string, phone: string, day: nat, month: nat, today: nat, thisMonth: nat)
    requires PlainValue(name) && PlainValue(phone)
    requires 1 <= day <= 31 && 1 <= month <= 12 && 1 <= today <= 31 && 1 <= thisMonth <= 12
    ensures var record := RecordFrom(Parse(ComposedMessage(name, phone, DateKey(day, month))));
      Plan([record], DateKey(today, thisMonth)) ==
        if today == day && thisMonth == month then [SendRequest(Address(Some(phone)), Greeting(Some(name)))] else []
  {
    var key := DateKey(day, month);
    DateKeyPlain(day, month);
    ComposedMessageParses(name, phone, key);
    var record := RecordFrom(Parse(ComposedMessage(name, phone, key)));
    assert record == BirthdayRecord(Some(name), Some(phone), Some(key));
    DateKeyInjective(day, month, today, thisMonth);
    PlanOfOne(record, DateKey(today, thisMonth));
  }

  /**
   * The whole flow on the store: a message from a stranger is ignored, the
   * owner's self-chat message is stored, and the midnight job of that day
   * plans exactly the one greeting.
   */
  method Session(owner: string, stranger: string, name: string, phone: string, day: nat, month: nat)
    returns (sends: seq<SendRequest>)
    requires stranger != owner && PlainValue(name) && PlainValue(phone)
    requires 1 <= day <= 31 && 1 <= month <= 12
    ensures sends == [SendRequest(Address(Some(phone)), Greeting(Some(name)))]
  {
    var body := ComposedMessage(name, phone, DateKey(day, month));
    var store := new BirthdayStore();
    store.HandleMessage(stranger, owner, body, Some(owner));
    assert store.records == [];
    store.HandleMessage(owner, owner, body, Some(owner));
    assert store.records == [RecordFrom(Parse(body))];
    sends := store.DailyJob(day, month);
    ComposedMessageGreetedOnItsDay(name, phone, day, month, day, month);
  }

  /** An eleven-digit phone loses its first digit. */
  lemma ElevenDigitPhone()
    ensures Address(Some("08012345678")) == "2348012345678@c.us"
  {
    assert Slice("08012345678", -10) == "8012345678";
  }

  lemma FifthOfMarchKey()
    ensures DateKey(5, 3) == "05-03"
  {
    assert NatToString(5) == "5" && Pad2(5) == "05";
    assert NatToString(3) == "3" && Pad2(3) == "03";
  }

  /** Of two records, only the one born on 5 March is greeted on 5 March. */
  lemma FifthOfMarch()
    ensures var first := BirthdayRecord(Some("Ada"), Some("08012345678"), Some("05-03"));
      var second := BirthdayRecord(Some("Bola"), Some("08087654321"), Some("15-08"));
      Plan([first, second], DateKey(5, 3)) == [Request(first)]
  {
    FifthOfMarchKey();
    var first := BirthdayRecord(Some("Ada"), Some("08012345678"), Some("05-03"));
    var second := BirthdayRecord(Some("Bola"), Some("08087654321"), Some("15-08"));
    PlanStep([first, second], "05-03", 1);
    PlanStep([first, second], "05-03", 0);
    assert [first, second][..2] == [first, second];
    assert [first, second][..0] == [];
  }
}
