/**
 * The two event handlers of the bot: `message_create` stores a birthday record
 * sent by the trusted self-chat, and the midnight job plans one greeting per
 * record whose birthday is today's `DD-MM`. The store is an in-memory sequence
 * in store order; the plan is the ordered list of (address, text) sends.
 */
module Birthdays {
  import opened Wrappers
  import opened JsText
  import opened MessageParser

  /** A stored document: three optional strings, none of them validated. */
  datatype BirthdayRecord = BirthdayRecord(name: Option<string>, phone: Option<string>, birthday: Option<string>)

  /** One `sendMessage(address, text)` the daily job issues. */
  datatype SendRequest = SendRequest(address: string, text: string)

  // ---------------------------------------------------------------------------
  // Ingestion

  /** Both ends of the message are the configured sender; an unset sender matches nobody. */
  predicate IsSelfChat(from: string, to: string, expectedSender: Option<string>)
    ensures IsSelfChat(from, to, expectedSender) ==> expectedSender.Some? && from == to
  {
    expectedSender == Some(from) && expectedSender == Some(to)
  }

  function Lookup(entries: map<string, string>, key: string): Option<string> {
    if key in entries then Some(entries[key]) else None
  }

  /** The record built from the parsed entries; a missing key leaves its field absent. */
  function RecordFrom(entries: map<string, string>): (r: BirthdayRecord)
    ensures r.name.Some? <==> "name" in entries
    ensures r.phone.Some? <==> "phone" in entries
    ensures r.birthday.Some? <==> "birthday" in entries
    ensures r.name.Some? ==> r.name.value == entries["name"]
    ensures r.phone.Some? ==> r.phone.value == entries["phone"]
    ensures r.birthday.Some? ==> r.birthday.value == entries["birthday"]
  {
    BirthdayRecord(Lookup(entries, "name"), Lookup(entries, "phone"), Lookup(entries, "birthday"))
  }

  /** A field taken from a parsed message is absent or a non-empty, trimmed, colon-free text. */
  predicate WellFormedField(f: Option<string>) {
    f.Some? ==> f.value != "" && IsTrimmed(f.value) && ':' !in f.value
  }

  // ---------------------------------------------------------------------------
  // Today's key

  /** `String(n).padStart(2, "0")`. */
  function Pad2(n: nat): string {
    PadStart(NatToString(n), 2, '0')
  }

  /** Below 100 the padded numeral has exactly two digits and reads back as `n`. */
  lemma Pad2Value(n: nat)
    requires n < 100
    ensures |Pad2(n)| == 2 && AllDigits(Pad2(n)) && DigitsValue(Pad2(n)) == n
  {
    var s := NatToString(n);
    NatToStringValue(n);
    if n >= 10 {
      assert |NatToString(n / 10)| == 1;
    } else {
      assert Pad2(n) == "0" + s;
      LeadingZeros("0", s);
    }
  }

  /** The `DD-MM` key of a day of the month and a month number. */
  function DateKey(day: nat, month: nat): string {
    Pad2(day) + "-" + Pad2(month)
  }

  /**
   * For a real day and month the key is five characters, `-` in the middle,
   * two digits on each side that read back as the day and the month.
   */
  lemma DateKeyShape(day: nat, month: nat)
    requires 1 <= day <= 31 && 1 <= month <= 12
    ensures var key := DateKey(day, month);
      && |key| == 5 && key[2] == '-'
      && AllDigits(key[..2]) && DigitsValue(key[..2]) == day
      && AllDigits(key[3..]) && DigitsValue(key[3..]) == month
  {
    var d, m := Pad2(day), Pad2(month);
    Pad2Value(day);
    Pad2Value(month);
    var key := d + "-" + m;
    assert key == DateKey(day, month);
    assert key[..2] == d && key[2] == '-' && key[3..] == m;
  }

  /** Distinct dates never share a key. */
  lemma DateKeyInjective(day1: nat, month1: nat, day2: nat, month2: nat)
    requires 1 <= day1 <= 31 && 1 <= month1 <= 12
    requires 1 <= day2 <= 31 && 1 <= month2 <= 12
    ensures DateKey(day1, month1) == DateKey(day2, month2) <==> day1 == day2 && month1 == month2
  {
    DateKeyShape(day1, month1);
    DateKeyShape(day2, month2);
  }

  // ---------------------------------------------------------------------------
  // Address and greeting

  const CountryCode: string := "234"
  const ChatSuffix: string := "@c.us"

  /** `person.phone?.slice(-10)` inside a template: a missing phone prints as "undefined". */
  function PhoneText(phone: Option<string>): string {
    match phone
    case None => "undefined"
    case Some(p) => Slice(p, -10)
  }

  /**
   * The chat address of a phone number: "234", then the last ten characters of
   * the phone (all of it when shorter), then "@c.us".
   */
  function Address(phone: Option<string>): (a: string)
    ensures |a| >= |CountryCode| + |ChatSuffix|
    ensures a[..3] == CountryCode && a[|a| - 5..] == ChatSuffix
    ensures phone.None? ==> a[3..|a| - 5] == "undefined"
    ensures phone.Some? ==>
      var p := phone.value;
      && |a| - 8 == (if |p| < 10 then |p| else 10)
      && a[3..|a| - 5] == p[|p| - (|a| - 8)..]
  {
    CountryCode + PhoneText(phone) + ChatSuffix
  }

  const GreetingOpening: string := "\U{1F389} Happy Birthday "
  const GreetingClosing: string :=
    "! I wish you long life and prosperity. May God bless you and may He grant you success in all you do. Remain blessed"

  /** `${person.name}`: a missing name prints as "undefined". */
  function NameText(name: Option<string>): string {
    name.GetOr("undefined")
  }

  /** The fixed greeting with the name between its opening and its closing. */
  function Greeting(name: Option<string>): (g: string)
    ensures |g| == |GreetingOpening| + |NameText(name)| + |GreetingClosing|
    ensures g[..|GreetingOpening|] == GreetingOpening
    ensures g[|GreetingOpening|..|g| - |GreetingClosing|] == NameText(name)
    ensures g[|g| - |GreetingClosing|..] == GreetingClosing
  {
    GreetingOpening + NameText(name) + GreetingClosing
  }

  /** Two greetings are equal only when they name the same text. */
  lemma GreetingInjective(name1: Option<string>, name2: Option<string>)
    ensures Greeting(name1) == Greeting(name2) <==> NameText(name1) == NameText(name2)
  {
    var g1, g2 := Greeting(name1), Greeting(name2);
    if g1 == g2 {
      assert g1[|GreetingOpening|..|g1| - |GreetingClosing|] == g2[|GreetingOpening|..|g2| - |GreetingClosing|];
    }
  }

  /** The send request for one matching record. */
  function Request(r: BirthdayRecord): SendRequest {
    SendRequest(Address(r.phone), Greeting(r.name))
  }

  // ---------------------------------------------------------------------------
  // The daily plan

  predicate IsBirthdayOn(r: BirthdayRecord, key: string) {
    r.birthday == Some(key)
  }

  /** The sends for `records` on the day with key `key`, in store order. */
  function Plan(records: seq<BirthdayRecord>, key: string): seq<SendRequest>
    decreases |records|
  {
    if records == [] then
      []
    else
      var last := records[|records| - 1];
      Plan(records[..|records| - 1], key) + (if IsBirthdayOn(last, key) then [Request(last)] else [])
  }

  /** The positions of the records whose birthday is `key`, in store order. */
  function MatchIndices(records: seq<BirthdayRecord>, key: string): seq<nat>
    decreases |records|
  {
    if records == [] then
      []
    else
      var n := |records| - 1;
      MatchIndices(records[..n], key) + (if IsBirthdayOn(records[n], key) then [n] else [])
  }

  /**
   * The match positions are increasing, each one a matching record, and every
   * matching record among them.
   */
  lemma {:induction false} MatchIndicesExact(records: seq<BirthdayRecord>, key: string)
    ensures forall k :: 0 <= k < |MatchIndices(records, key)| ==>
      MatchIndices(records, key)[k] < |records| && IsBirthdayOn(records[MatchIndices(records, key)[k]], key)
    ensures forall k, l :: 0 <= k < l < |MatchIndices(records, key)| ==>
      MatchIndices(records, key)[k] < MatchIndices(records, key)[l]
    ensures forall i :: 0 <= i < |records| && IsBirthdayOn(records[i], key) ==> i in MatchIndices(records, key)
    decreases |records|
  {
    if records != [] {
      var n := |records| - 1;
      var prefix := records[..n];
      MatchIndicesExact(prefix, key);
      var ix0 := MatchIndices(prefix, key);
      assert forall k :: 0 <= k < |ix0| ==> ix0[k] < n && records[ix0[k]] == prefix[ix0[k]];
      assert forall i :: 0 <= i < n ==> records[i] == prefix[i];
    }
  }

  /**
   * The plan holds exactly one send per matching record, in store order, and
   * none for any other record.
   */
  lemma {:induction false} PlanFollowsMatches(records: seq<BirthdayRecord>, key: string)
    ensures |Plan(records, key)| == |MatchIndices(records, key)|
    ensures forall k :: 0 <= k < |Plan(records, key)| ==> MatchIndices(records, key)[k] < |records|
    ensures forall k :: 0 <= k < |Plan(records, key)| ==>
      Plan(records, key)[k] == Request(records[MatchIndices(records, key)[k]])
    decreases |records|
  {
    if records != [] {
      var n := |records| - 1;
      PlanFollowsMatches(records[..n], key);
      var ix := MatchIndices(records[..n], key);
      assert forall k :: 0 <= k < |ix| ==> records[ix[k]] == records[..n][ix[k]];
    }
  }

  lemma PlanStep(records: seq<BirthdayRecord>, key: string, i: nat)
    requires i < |records|
    ensures Plan(records[..i + 1], key) ==
      Plan(records[..i], key) + (if IsBirthdayOn(records[i], key) then [Request(records[i])] else [])
  {
    assert records[..i + 1][..i] == records[..i];
  }

  /** The plan of a concatenation is the concatenation of the plans. */
  lemma {:induction false} PlanAppend(a: seq<BirthdayRecord>, b: seq<BirthdayRecord>, key: string)
    ensures Plan(a + b, key) == Plan(a, key) + Plan(b, key)
    decreases |b|
  {
    if b == [] {
      assert a + b == a;
    } else {
      var n := |b| - 1;
      assert (a + b)[..|a + b| - 1] == a + b[..n];
      PlanAppend(a, b[..n], key);
    }
  }

  // ---------------------------------------------------------------------------
  // The store and the two handlers

  class BirthdayStore {
    /** The stored documents, in the order `find()` returns them. */
    var records: seq<BirthdayRecord>

    constructor ()
      ensures records == []
    {
      records := [];
    }

    /**
     * The `message_create` handler: a self-chat message from the configured
     * sender adds exactly one record, built from its parsed body; any other
     * message leaves the store as it was.
     */
    method HandleMessage(from: string, to: string, body: string, expectedSender: Option<string>)
      modifies this
      ensures records == if IsSelfChat(from, to, expectedSender)
        then old(records) + [RecordFrom(Parse(body))]
        else old(records)
      ensures |records| == |old(records)| + (if IsSelfChat(from, to, expectedSender) then 1 else 0)
      ensures IsSelfChat(from, to, expectedSender) ==>
        var added := records[|records| - 1];
        WellFormedField(added.name) && WellFormedField(added.phone) && WellFormedField(added.birthday)
    {
      if expectedSender == Some(from) && expectedSender == Some(to) {
        var entries := ParseBody(body);
        var entry := RecordFrom(entries);
        records := records + [entry];
      }
    }

    /**
     * The midnight job on a given day of the month and month number: one send
     * per record whose birthday is that day's key, in store order.
     */
    method DailyJob(day: nat, month: nat) returns (sends: seq<SendRequest>)
      ensures sends == Plan(records, DateKey(day, month))
      ensures records == [] ==> sends == []
    {
      var todayKey := DateKey(day, month);
      sends := [];
      for i := 0 to |records|
        invariant sends == Plan(records[..i], todayKey)
      {
        var person := records[i];
        if person.birthday == Some(todayKey) {
          var number := Address(person.phone);
          var message := Greeting(person.name);
          sends := sends + [SendRequest(number, message)];
        }
        PlanStep(records, todayKey, i);
      }
      assert records[..|records|] == records;
    }
  }
}
