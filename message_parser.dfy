/**
 * The body parser of the `message_create` handler: the body is split into
 * lines, every line is split on each `:` and every piece trimmed; piece 0 is
 * the key and piece 1 the value, and when both are non-empty the lower-cased
 * key is mapped to the value, a later line overwriting an earlier one.
 */
module MessageParser {
  import opened Wrappers
  import opened JsText

  /** What the parser promises of each stored pair. */
  predicate WellFormedEntry(key: string, value: string) {
    && key != [] && HasNoAsciiUpper(key) && IsTrimmed(key) && ':' !in key
    && value != [] && IsTrimmed(value) && ':' !in value
  }

  predicate WellFormedEntries(m: map<string, string>) {
    forall k :: k in m ==> WellFormedEntry(k, m[k])
  }

  /**
   * The (key, value) pair one line contributes, or None when the line has no
   * value piece or either trimmed piece is empty.
   */
  function LineEntry(line: string): Option<(string, string)> {
    var parts := Split(line, ':');
    var key := Trim(parts[0]);
    if |parts| < 2 then
      None
    else
      var value := Trim(parts[1]);
      if key != "" && value != "" then Some((AsciiLower(key), value)) else None
  }

  /** Every pair a line contributes has a lower-case, trimmed key and a trimmed value, both non-empty and colon-free. */
  lemma LineEntryWellFormed(line: string)
    ensures LineEntry(line).Some? ==> WellFormedEntry(LineEntry(line).value.0, LineEntry(line).value.1)
  {
    var parts := Split(line, ':');
    SplitPiecesFree(line, ':');
    TrimShape(parts[0]);
    AsciiLowerKeepsShape(Trim(parts[0]));
    AsciiLowerMeaning(Trim(parts[0]));
    if |parts| >= 2 {
      TrimShape(parts[1]);
    }
  }

  /** The key a line contributes, if any. */
  function KeyOf(line: string): Option<string> {
    EntryKey(LineEntry(line))
  }

  function EntryKey(e: Option<(string, string)>): Option<string> {
    match e
    case None => None
    case Some((k, _)) => Some(k)
  }

  /** What each line contributes, line by line, for a given per-line function. */
  function MapLines(f: string -> Option<(string, string)>, lines: seq<string>): (es: seq<Option<(string, string)>>)
    ensures |es| == |lines|
    decreases |lines|
  {
    if lines == [] then [] else MapLines(f, lines[..|lines| - 1]) + [f(lines[|lines| - 1])]
  }

  lemma {:induction false} MapLinesAt(f: string -> Option<(string, string)>, lines: seq<string>, i: nat)
    requires i < |lines|
    ensures MapLines(f, lines)[i] == f(lines[i])
    decreases |lines|
  {
    var n := |lines| - 1;
    if i < n {
      MapLinesAt(f, lines[..n], i);
    }
  }

  lemma {:induction false} MapLinesAppend(f: string -> Option<(string, string)>, a: seq<string>, b: seq<string>)
    ensures MapLines(f, a + b) == MapLines(f, a) + MapLines(f, b)
    decreases |b|
  {
    if b == [] {
      assert a + b == a;
    } else {
      var n := |b| - 1;
      assert (a + b)[..|a + b| - 1] == a + b[..n];
      MapLinesAppend(f, a, b[..n]);
    }
  }

  /** What each line of `lines` contributes. */
  function EntriesOf(lines: seq<string>): seq<Option<(string, string)>> {
    MapLines(LineEntry, lines)
  }

  /** One step of the `forEach`: store what a line contributes, if anything. */
  function AddEntry(m: map<string, string>, e: Option<(string, string)>): map<string, string> {
    match e
    case None => m
    case Some((k, v)) => m[k := v]
  }

  /** The map built from the contributions of successive lines. */
  function Fold(es: seq<Option<(string, string)>>): map<string, string>
    decreases |es|
  {
    if es == [] then map[] else AddEntry(Fold(es[..|es| - 1]), es[|es| - 1])
  }

  /** The map built from `lines`, one line after another. */
  function ParseLines(lines: seq<string>): map<string, string> {
    Fold(EntriesOf(lines))
  }

  /** The map the handler builds from a message body. */
  function Parse(body: string): map<string, string> {
    ParseLines(Split(body, '\n'))
  }

  lemma ParseLinesSnoc(lines: seq<string>, line: string)
    ensures ParseLines(lines + [line]) == AddEntry(ParseLines(lines), LineEntry(line))
  {
    assert (lines + [line])[..|lines|] == lines;
  }

  lemma ParseLinesStep(lines: seq<string>, i: nat)
    requires i < |lines|
    ensures ParseLines(lines[..i + 1]) == AddEntry(ParseLines(lines[..i]), LineEntry(lines[i]))
  {
    assert lines[..i + 1] == lines[..i] + [lines[i]];
    ParseLinesSnoc(lines[..i], lines[i]);
  }

  /** The handler's `forEach` over the lines, updating the entry map in place. */
  method ParseBody(body: string) returns (entries: map<string, string>)
    ensures entries == Parse(body)
    ensures WellFormedEntries(entries)
  {
    var lines := Split(body, '\n');
    entries := map[];
    var i := 0;
    while i < |lines|
      invariant 0 <= i <= |lines|
      invariant entries == ParseLines(lines[..i])
    {
      ghost var before := entries;
      var parts := Split(lines[i], ':');
      var key := Trim(parts[0]);
      if |parts| >= 2 {
        var value := Trim(parts[1]);
        if key != "" && value != "" {
          entries := entries[AsciiLower(key) := value];
        }
      }
      ParseLinesStep(lines, i);
      assert entries == AddEntry(before, LineEntry(lines[i]));
      i := i + 1;
    }
    assert lines[..i] == lines;
    ParseLinesWellFormed(lines);
  }

  // ---------------------------------------------------------------------------
  // What one line contributes

  /** A line without a colon contributes nothing. */
  lemma LineEntryNoColon(line: string)
    requires ':' !in line
    ensures LineEntry(line) == None
  {
    SplitNone(line, ':');
  }

  /**
   * With the first colon at `i` and the next one (or the end) at `j`, the key is
   * the trimmed text before `i` and the value the trimmed text strictly between
   * `i` and `j`: nothing after a second colon reaches the map.
   */
  lemma LineEntryBetweenColons(line: string, i: nat, j: nat)
    requires i < j <= |line| && line[i] == ':' && ':' !in line[..i]
    requires ':' !in line[i + 1..j] && (j == |line| || line[j] == ':')
    ensures LineEntry(line) ==
      var key := Trim(line[..i]);
      var value := Trim(line[i + 1..j]);
      if key != "" && value != "" then Some((AsciiLower(key), value)) else None
  {
    var rest := line[i + 1..];
    SplitAt(line, ':', i);
    var pieces := Split(rest, ':');
    if j == |line| {
      assert rest == line[i + 1..j];
      SplitNone(rest, ':');
    } else {
      assert rest[..j - i - 1] == line[i + 1..j];
      SplitAt(rest, ':', j - i - 1);
    }
    assert pieces[0] == line[i + 1..j];
    assert Split(line, ':')[1] == pieces[0];
  }

  /**
   * A `Key: Value` line with a single colon contributes the lower-cased trimmed
   * key and the trimmed value, unless either is empty once trimmed.
   */
  lemma LineEntryKeyValue(key: string, value: string)
    requires ':' !in key && ':' !in value
    ensures LineEntry(key + ":" + value) ==
      if Trim(key) != "" && Trim(value) != "" then Some((AsciiLower(Trim(key)), Trim(value))) else None
  {
    var line := key + ":" + value;
    var i := |key|;
    assert line[..i] == key by {
      assert forall k :: 0 <= k < i ==> line[k] == key[k];
    }
    assert line[i + 1..|line|] == value by {
      assert forall k :: 0 <= k < |value| ==> line[i + 1 + k] == value[k];
    }
    assert line[i] == ':';
    LineEntryBetweenColons(line, i, |line|);
  }

  /** Whatever follows a second colon is dropped: the line reads as if it ended there. */
  lemma LineEntryDropsTail(key: string, value: string, tail: string)
    requires ':' !in key && ':' !in value
    ensures LineEntry(key + ":" + value + ":" + tail) == LineEntry(key + ":" + value)
  {
    var line := key + ":" + value + ":" + tail;
    var i, j := |key|, |key| + 1 + |value|;
    assert line[..i] == key by {
      assert forall k :: 0 <= k < i ==> line[k] == key[k];
    }
    assert line[i + 1..j] == value by {
      assert forall k :: 0 <= k < |value| ==> line[i + 1 + k] == value[k];
    }
    assert line[i] == ':' && line[j] == ':';
    LineEntryBetweenColons(line, i, j);
    LineEntryKeyValue(key, value);
  }

  // ---------------------------------------------------------------------------
  // What the fold produces

  /** Contribution `i` is the last one in `es` with key `k`. */
  predicate LastEntryWithKey(es: seq<Option<(string, string)>>, k: string, i: int) {
    && 0 <= i < |es| && EntryKey(es[i]) == Some(k)
    && forall j :: i < j < |es| ==> EntryKey(es[j]) != Some(k)
  }

  lemma {:induction false} FoldLastWins(es: seq<Option<(string, string)>>, k: string, i: int)
    requires LastEntryWithKey(es, k, i)
    ensures k in Fold(es) && es[i] == Some((k, Fold(es)[k]))
    decreases |es|
  {
    var n := |es| - 1;
    if i < n {
      var prefix := es[..n];
      assert LastEntryWithKey(prefix, k, i) by {
        forall j | i < j < |prefix| ensures EntryKey(prefix[j]) != Some(k) {
          assert prefix[j] == es[j];
        }
      }
      FoldLastWins(prefix, k, i);
      assert EntryKey(es[n]) != Some(k);
    }
  }

  lemma {:induction false} FoldAbsent(es: seq<Option<(string, string)>>, k: string)
    requires forall i :: 0 <= i < |es| ==> EntryKey(es[i]) != Some(k)
    ensures k !in Fold(es)
    decreases |es|
  {
    if es != [] {
      var n := |es| - 1;
      assert EntryKey(es[n]) != Some(k);
      FoldAbsent(es[..n], k);
    }
  }

  lemma {:induction false} FoldSkipsNone(before: seq<Option<(string, string)>>, after: seq<Option<(string, string)>>)
    ensures Fold(before + [None] + after) == Fold(before + after)
    decreases |after|
  {
    if after == [] {
      assert (before + [None] + after)[..|before|] == before;
      assert before + after == before;
    } else {
      var n := |after| - 1;
      var all := before + [None] + after;
      assert all[..|all| - 1] == before + [None] + after[..n];
      var rest := before + after;
      assert rest[..|rest| - 1] == before + after[..n];
      FoldSkipsNone(before, after[..n]);
    }
  }

  lemma {:induction false} FoldWellFormed(es: seq<Option<(string, string)>>)
    requires forall i :: 0 <= i < |es| && es[i].Some? ==> WellFormedEntry(es[i].value.0, es[i].value.1)
    ensures WellFormedEntries(Fold(es))
    decreases |es|
  {
    if es != [] {
      FoldWellFormed(es[..|es| - 1]);
    }
  }

  // ---------------------------------------------------------------------------
  // What the whole body produces

  /** Every stored key is lower-case, trimmed, non-empty and colon-free, and so is every stored value but for case. */
  lemma ParseLinesWellFormed(lines: seq<string>)
    ensures WellFormedEntries(ParseLines(lines))
  {
    var es := EntriesOf(lines);
    forall i | 0 <= i < |es| && es[i].Some?
      ensures WellFormedEntry(es[i].value.0, es[i].value.1)
    {
      MapLinesAt(LineEntry, lines, i);
      LineEntryWellFormed(lines[i]);
    }
    FoldWellFormed(es);
  }

  /** Line `i` is the last line of `lines` that contributes key `k`. */
  predicate LastWithKey(lines: seq<string>, k: string, i: int) {
    && 0 <= i < |lines| && KeyOf(lines[i]) == Some(k)
    && forall j :: i < j < |lines| ==> KeyOf(lines[j]) != Some(k)
  }

  /** The keys of the entries are the keys of the lines. */
  lemma EntryKeysOf(lines: seq<string>)
    ensures forall j :: 0 <= j < |lines| ==> EntryKey(EntriesOf(lines)[j]) == KeyOf(lines[j])
  {
    forall j | 0 <= j < |lines| ensures EntryKey(EntriesOf(lines)[j]) == KeyOf(lines[j]) {
      MapLinesAt(LineEntry, lines, j);
    }
  }

  /** The stored value for a key is the one from the last line with that key. */
  lemma ParseLinesLastWins(lines: seq<string>, k: string, i: int)
    requires LastWithKey(lines, k, i)
    ensures k in ParseLines(lines)
    ensures LineEntry(lines[i]) == Some((k, ParseLines(lines)[k]))
  {
    var es := EntriesOf(lines);
    EntryKeysOf(lines);
    assert LastEntryWithKey(es, k, i);
    FoldLastWins(es, k, i);
    MapLinesAt(LineEntry, lines, i);
  }

  /** A key that no line contributes is absent. */
  lemma ParseLinesAbsent(lines: seq<string>, k: string)
    requires forall i :: 0 <= i < |lines| ==> KeyOf(lines[i]) != Some(k)
    ensures k !in ParseLines(lines)
  {
    EntryKeysOf(lines);
    FoldAbsent(EntriesOf(lines), k);
  }

  /** Removing a line that contributes nothing, wherever it stands, leaves the map unchanged. */
  lemma ParseLinesSkipsIgnoredLine(before: seq<string>, line: string, after: seq<string>)
    requires LineEntry(line) == None
    ensures ParseLines(before + [line] + after) == ParseLines(before + after)
  {
    MapLinesAppend(LineEntry, before, [line]);
    assert EntriesOf([line]) == [None] by {
      assert [line][..0] == [];
    }
    MapLinesAppend(LineEntry, before + [line], after);
    MapLinesAppend(LineEntry, before, after);
    FoldSkipsNone(EntriesOf(before), EntriesOf(after));
  }
}
