/** `parse_zabbix_msg`: the Zabbix alert text, one `Key: Value` per line,
    read into an insertion-ordered dict. A line without a colon continues
    the value of the most recent key. */
module Template {
  import opened Wrappers
  import opened Text
  import opened Fields

  /** The `ValueError("Invalid template")` the parser raises. */
  datatype ParseError = InvalidTemplate

  /** One line as the loop sees it: `line.split(":", 1)` either unpacks
      into the key (kept exactly as written) and the stripped value, or
      raises, and the stripped line may continue the previous value. */
  datatype Line = Entry(key: string, value: string) | Continued(text: string)

  /** The body of the `try`/`else` on one line, before the dict is touched. */
  function ReadLine(line: string): (r: Line)
    ensures r.Entry? <==> ':' in line
    ensures r.Entry? ==> ':' !in r.key && |r.key| < |line|
    ensures r.Entry? ==>
              line[..|r.key|] == r.key && line[|r.key|] == ':' && r.value == Strip(line[|r.key| + 1..])
    ensures r.Continued? ==> r.text == Strip(line)
  {
    match SplitFirst(line, ':')
    case Some((k, v)) =>
      assert line[..|k|] == k && line[|k| + 1..] == v;
      Entry(k, Strip(v))
    case None => Continued(Strip(line))
  }

  /** The key is everything before the first colon, the value everything
      after it, stripped. */
  lemma ReadLineEntry(k: string, rest: string)
    requires ':' !in k
    ensures ReadLine(k + [':'] + rest) == Entry(k, Strip(rest))
  {
    IndexOfAfterPrefix(k, ':', rest);
    var line := k + [':'] + rest;
    assert line[..|k|] == k && line[|k| + 1..] == rest;
  }

  /** `Key: Value`, the shape of each line of the alert template, reads as
      that key and value. */
  lemma ReadLineSpaced(k: string, v: string)
    requires ':' !in k && Trimmed(v)
    ensures ReadLine(k + ": " + v) == Entry(k, v)
  {
    assert k + ": " + v == k + [':'] + (" " + v);
    ReadLineEntry(k, " " + v);
    StripLeadingSpace(v);
  }

  function ReadLines(lines: seq<string>): seq<Line> {
    seq(|lines|, i requires 0 <= i < |lines| => ReadLine(lines[i]))
  }

  /** The parser's loop variables: the dict built so far and `last_key`. */
  datatype ParseState = ParseState(fields: Dict, lastKey: Option<string>)

  /** What the loop keeps true: `last_key`, when set, names a key of the
      dict, so `ret[last_key] += ...` never raises `KeyError`. */
  predicate Consistent(st: ParseState) {
    st.lastKey.Some? ==> st.lastKey.value in st.fields.values
  }

  /** Python's truth test `if last_key`: set and not the empty string. */
  predicate Armed(lastKey: Option<string>) {
    lastKey.Some? && lastKey.value != ""
  }

  /** One iteration of the loop over lines. */
  function Step(st: ParseState, l: Line): (r: Result<ParseState, ParseError>)
    requires Consistent(st)
    ensures r.Ok? ==> Consistent(r.value)
    ensures r.Err? <==> l.Continued? && !Armed(st.lastKey)
    ensures r.Ok? ==> r.value.lastKey == if l.Entry? then Some(l.key) else st.lastKey
  {
    match l
    case Entry(k, v) => Ok(ParseState(Put(st.fields, k, v), Some(k)))
    case Continued(t) =>
      if !Armed(st.lastKey) then Err(InvalidTemplate)
      else
        var k := st.lastKey.value;
        Ok(ParseState(Put(st.fields, k, st.fields.values[k] + "\n" + t), st.lastKey))
  }

  /** The loop state after the first `n` lines; an error, once raised,
      ends the loop. */
  function Run(ls: seq<Line>, n: nat): (r: Result<ParseState, ParseError>)
    requires n <= |ls|
    ensures r.Ok? ==> Consistent(r.value)
  {
    if n == 0 then Ok(ParseState(Empty, None))
    else
      match Run(ls, n - 1)
      case Err(e) => Err(e)
      case Ok(st) => Step(st, ls[n - 1])
  }

  /** `data.split("\n")`. */
  function Lines(text: string): seq<string> {
    Split(text, '\n')
  }

  /** `parse_zabbix_msg(data)`. */
  function ParseZabbixMsg(text: string): (r: Result<Dict, ParseError>)
    ensures r.Ok? ==> Valid(r.value)
  {
    var ls := ReadLines(Lines(text));
    match Run(ls, |ls|)
    case Ok(st) => ParseKeys(ls, |ls|); Ok(st.fields)
    case Err(e) => Err(e)
  }

  /** The index of the last line before `n` that has a colon. */
  function LastEntry(ls: seq<Line>, n: nat): (r: Option<nat>)
    requires n <= |ls|
    ensures r.Some? ==> r.value < n && ls[r.value].Entry?
    ensures r.Some? ==> forall m :: r.value < m < n ==> ls[m].Continued?
    ensures r.None? ==> forall m :: 0 <= m < n ==> ls[m].Continued?
  {
    if n == 0 then None
    else if ls[n - 1].Entry? then Some(n - 1)
    else LastEntry(ls, n - 1)
  }

  /** A colon-free line at index `i` may continue a value: the nearest line
      above it that has a colon has a non-empty key. */
  predicate ContinuationAllowed(ls: seq<Line>, i: nat)
    requires i <= |ls|
  {
    var j := LastEntry(ls, i);
    j.Some? && ls[j.value].key != ""
  }

  /** A line with a colon whose key no later line before `n` uses again. */
  predicate LastOccurrence(ls: seq<Line>, j: nat, n: nat)
    requires j < n <= |ls| && ls[j].Entry?
    decreases n
  {
    n == j + 1
    || (LastOccurrence(ls, j, n - 1) && !(ls[n - 1].Entry? && ls[n - 1].key == ls[j].key))
  }

  /** The text that the colon-free lines starting at `a` add to a value:
      `"\n" + line.strip()` for each, up to the next line with a colon or
      to line `n`. */
  function Continuation(ls: seq<Line>, a: nat, n: nat): string
    requires a <= n <= |ls|
    decreases n - a
  {
    if a == n || ls[a].Entry? then "" else "\n" + ls[a].text + Continuation(ls, a + 1, n)
  }

  /** No line in `[a, n)` has a colon. */
  predicate NoEntry(ls: seq<Line>, a: nat, n: nat)
    requires a <= n <= |ls|
  {
    forall m :: a <= m < n ==> ls[m].Continued?
  }

  lemma {:induction false} ContinuationSnoc(ls: seq<Line>, a: nat, n: nat)
    requires a <= n < |ls|
    ensures Continuation(ls, a, n + 1)
         == if NoEntry(ls, a, n + 1)
            then Continuation(ls, a, n) + "\n" + ls[n].text
            else Continuation(ls, a, n)
    decreases n - a
  {
    if a < n && ls[a].Continued? {
      ContinuationSnoc(ls, a + 1, n);
      var s := "\n" + ls[a].text;
      if NoEntry(ls, a, n + 1) {
        assert NoEntry(ls, a + 1, n + 1);
        assert s + (Continuation(ls, a + 1, n) + "\n" + ls[n].text)
            == (s + Continuation(ls, a + 1, n)) + "\n" + ls[n].text;
      } else {
        assert !NoEntry(ls, a + 1, n + 1);
      }
    }
  }

  lemma OkPrefix(ls: seq<Line>, n: nat)
    requires 0 < n <= |ls|
    requires Run(ls, n).Ok?
    ensures Run(ls, n - 1).Ok?
    ensures Step(Run(ls, n - 1).value, ls[n - 1]) == Run(ls, n)
  {
  }

  /** `last_key` is the key of the last line so far that had a colon. */
  lemma {:induction false} ParseLastKey(ls: seq<Line>, n: nat)
    requires n <= |ls|
    requires Run(ls, n).Ok?
    ensures var j := LastEntry(ls, n);
            Run(ls, n).value.lastKey == if j.Some? then Some(ls[j.value].key) else None
  {
    if n > 0 {
      OkPrefix(ls, n);
      ParseLastKey(ls, n - 1);
    }
  }

  /** Parsing fails exactly when some colon-free line is not allowed to
      continue a value: no line above it has a colon, or the nearest such
      line has the empty key. */
  lemma {:induction false} ParseFailsIff(ls: seq<Line>, n: nat)
    requires n <= |ls|
    ensures Run(ls, n).Err?
        <==> exists i :: 0 <= i < n && ls[i].Continued? && !ContinuationAllowed(ls, i)
  {
    if n > 0 {
      ParseFailsIff(ls, n - 1);
      if Run(ls, n - 1).Ok? {
        ParseLastKey(ls, n - 1);
        var i := n - 1;
        assert Run(ls, n).Err? <==> ls[i].Continued? && !ContinuationAllowed(ls, i);
      }
    }
  }

  /** Some line before `n` has a colon and the key `k`. */
  predicate KeyedLine(ls: seq<Line>, n: nat, k: string)
    requires n <= |ls|
  {
    exists j :: 0 <= j < n && ls[j].Entry? && ls[j].key == k
  }

  /** The keys of the lines before `n` that have a colon, each where it
      first appears. */
  function FirstKeys(ls: seq<Line>, n: nat): (ks: seq<string>)
    requires n <= |ls|
    ensures Distinct(ks)
    ensures forall k :: k in ks <==> KeyedLine(ls, n, k)
  {
    if n == 0 then []
    else
      var ks := FirstKeys(ls, n - 1);
      var l := ls[n - 1];
      forall k ensures KeyedLine(ls, n, k) <==> KeyedLine(ls, n - 1, k) || (l.Entry? && l.key == k) {
        if KeyedLine(ls, n, k) && !(l.Entry? && l.key == k) {
          var j :| 0 <= j < n && ls[j].Entry? && ls[j].key == k;
          assert j < n - 1;
        }
      }
      if l.Entry? && l.key !in ks then ks + [l.key] else ks
  }

  /** What one step does to the dict: a line with a colon sets its key, a
      continuation line extends the value under `last_key`, and every
      other key keeps its value. */
  lemma StepGet(st: ParseState, l: Line, k: string)
    requires Consistent(st) && Step(st, l).Ok?
    ensures Get(Step(st, l).value.fields, k)
         == if l.Entry? then (if l.key == k then Some(l.value) else Get(st.fields, k))
            else if st.lastKey == Some(k) then Some(st.fields.values[k] + "\n" + l.text)
            else Get(st.fields, k)
  {
  }

  /** The keys of the result are the keys of the lines that have a colon,
      in the order in which they first appear. */
  lemma {:induction false} ParseKeys(ls: seq<Line>, n: nat)
    requires n <= |ls|
    requires Run(ls, n).Ok?
    ensures Run(ls, n).value.fields.keys == FirstKeys(ls, n)
    ensures forall k :: k in Run(ls, n).value.fields.values <==> KeyedLine(ls, n, k)
    ensures Valid(Run(ls, n).value.fields)
  {
    if n > 0 {
      OkPrefix(ls, n);
      ParseKeys(ls, n - 1);
      if ls[n - 1].Continued? {
        ParseLastKey(ls, n - 1);
      }
    }
  }

  /** The value under `k` after line `n - 1`, when that line continues
      the value of line `j`. */
  lemma ValueContinued(ls: seq<Line>, n: nat, j: nat)
    requires j < n - 1 && n <= |ls| && ls[j].Entry? && ls[n - 1].Continued?
    requires NoEntry(ls, j + 1, n)
    requires Run(ls, n).Ok?
    requires Get(Run(ls, n - 1).value.fields, ls[j].key)
          == Some(ls[j].value + Continuation(ls, j + 1, n - 1))
    ensures Get(Run(ls, n).value.fields, ls[j].key)
         == Some(ls[j].value + Continuation(ls, j + 1, n))
  {
    OkPrefix(ls, n);
    var st := Run(ls, n - 1).value;
    var l := ls[n - 1];
    ParseLastKey(ls, n - 1);
    LastEntryBefore(ls, n - 1, j);
    StepGet(st, l, ls[j].key);
    ContinuationSnoc(ls, j + 1, n - 1);
    NewlineRegroup(ls[j].value, Continuation(ls, j + 1, n - 1), l.text);
  }

  /** The entry at `j` is the last one before `n` when none follows it. */
  lemma LastEntryBefore(ls: seq<Line>, n: nat, j: nat)
    requires j < n <= |ls| && ls[j].Entry? && NoEntry(ls, j + 1, n)
    ensures LastEntry(ls, n) == Some(j)
  {
  }

  lemma NewlineRegroup(v: string, c: string, t: string)
    ensures (v + c) + "\n" + t == v + (c + "\n" + t)
  {
  }

  /** The value under `k` after line `n - 1`, when that line neither sets
      `k` nor continues it. */
  lemma ValueUntouched(ls: seq<Line>, n: nat, j: nat)
    requires j < n - 1 && n <= |ls| && ls[j].Entry?
    requires !NoEntry(ls, j + 1, n)
    requires !(ls[n - 1].Entry? && ls[n - 1].key == ls[j].key)
    requires forall m :: j < m < n - 1 && ls[m].Entry? ==> ls[m].key != ls[j].key
    requires Run(ls, n).Ok?
    ensures Get(Run(ls, n).value.fields, ls[j].key) == Get(Run(ls, n - 1).value.fields, ls[j].key)
    ensures Continuation(ls, j + 1, n) == Continuation(ls, j + 1, n - 1)
  {
    OkPrefix(ls, n);
    var st := Run(ls, n - 1).value;
    StepGet(st, ls[n - 1], ls[j].key);
    ContinuationSnoc(ls, j + 1, n - 1);
    if ls[n - 1].Continued? {
      ParseLastKey(ls, n - 1);
      assert LastEntry(ls, n - 1).value > j;
    }
  }

  /** A key no later line repeats is not repeated by any line in between. */
  lemma {:induction false} LastOccurrenceAt(ls: seq<Line>, j: nat, n: nat, m: nat)
    requires j < m < n <= |ls| && ls[j].Entry?
    requires LastOccurrence(ls, j, n)
    ensures !(ls[m].Entry? && ls[m].key == ls[j].key)
    decreases n
  {
    if m < n - 1 {
      LastOccurrenceAt(ls, j, n - 1, m);
    }
  }

  /** The value stored under a key is the value on the last line with that
      key, followed by the continuation lines directly below it. */
  lemma {:induction false} ParseValue(ls: seq<Line>, n: nat, j: nat)
    requires j < n <= |ls| && ls[j].Entry?
    requires LastOccurrence(ls, j, n)
    requires Run(ls, n).Ok?
    ensures Get(Run(ls, n).value.fields, ls[j].key)
         == Some(ls[j].value + Continuation(ls, j + 1, n))
  {
    OkPrefix(ls, n);
    if j == n - 1 {
      StepGet(Run(ls, n - 1).value, ls[j], ls[j].key);
      assert ls[j].value + "" == ls[j].value;
    } else {
      ParseValue(ls, n - 1, j);
      if ls[n - 1].Continued? && NoEntry(ls, j + 1, n) {
        ValueContinued(ls, n, j);
      } else {
        forall m | j < m < n - 1 && ls[m].Entry? ensures ls[m].key != ls[j].key {
          LastOccurrenceAt(ls, j, n, m);
        }
        if ls[n - 1].Entry? {
          assert !NoEntry(ls, j + 1, n);
        }
        ValueUntouched(ls, n, j);
      }
    }
  }

  /** The empty message fails: it is one empty line, and no key precedes it. */
  lemma ParseEmptyFails()
    ensures ParseZabbixMsg("").Err?
  {
    assert Lines("") == [""];
  }

  /** A message whose first line has no colon fails, whatever follows. */
  lemma FirstLineWithoutColonFails(text: string)
    requires ':' !in Lines(text)[0]
    ensures ParseZabbixMsg(text).Err?
  {
    var ls := ReadLines(Lines(text));
    ParseFailsIff(ls, |ls|);
    assert !ContinuationAllowed(ls, 0);
  }

  /** A message assembled from lines is parsed line by line. */
  lemma ParseJoined(lines: seq<string>)
    requires |lines| >= 1
    requires forall i :: 0 <= i < |lines| ==> '\n' !in lines[i]
    ensures ParseZabbixMsg(Join(lines, '\n'))
         == match Run(ReadLines(lines), |lines|)
            case Ok(st) => Ok(st.fields)
            case Err(e) => Err(e)
  {
    SplitJoin(lines, '\n');
  }

  lemma RunTwo(ls: seq<Line>, k1: string, v1: string, k2: string, v2: string)
    requires k1 != k2
    requires |ls| >= 2 && ls[0] == Entry(k1, v1) && ls[1] == Entry(k2, v2)
    ensures Run(ls, 2) == Ok(ParseState(Dict([k1, k2], map[k1 := v1, k2 := v2]), Some(k2)))
  {
    var d1 := Dict([k1], map[k1 := v1]);
    assert Put(Empty, k1, v1) == d1 by {
      assert Empty.keys + [k1] == [k1];
      assert Empty.values[k1 := v1] == map[k1 := v1];
    }
    assert Run(ls, 1) == Ok(ParseState(d1, Some(k1)));
    assert Put(d1, k2, v2) == Dict([k1, k2], map[k1 := v1, k2 := v2]) by {
      assert [k1] + [k2] == [k1, k2];
    }
  }

  /** Two `Key: Value` lines with different keys give a two-entry dict, in
      line order. */
  lemma ParseTwoEntries(k1: string, v1: string, k2: string, v2: string)
    requires k1 != k2
    requires ':' !in k1 && ':' !in k2 && Trimmed(v1) && Trimmed(v2)
    requires '\n' !in k1 && '\n' !in k2 && '\n' !in v1 && '\n' !in v2
    ensures ParseZabbixMsg(k1 + ": " + v1 + "\n" + k2 + ": " + v2)
         == Ok(Dict([k1, k2], map[k1 := v1, k2 := v2]))
  {
    var lines := [k1 + ": " + v1, k2 + ": " + v2];
    assert Join(lines, '\n') == k1 + ": " + v1 + "\n" + k2 + ": " + v2;
    ParseJoined(lines);
    ReadLineSpaced(k1, v1);
    ReadLineSpaced(k2, v2);
    RunTwo(ReadLines(lines), k1, v1, k2, v2);
  }

  lemma RunTwoThenContinued(ls: seq<Line>, k1: string, v1: string, k2: string, v2: string, c: string)
    requires k1 != k2 && k2 != ""
    requires ls == [Entry(k1, v1), Entry(k2, v2), Continued(c)]
    ensures Run(ls, 3) == Ok(ParseState(Dict([k1, k2], map[k1 := v1, k2 := v2 + "\n" + c]), Some(k2)))
  {
    RunTwo(ls, k1, v1, k2, v2);
    var d2 := Dict([k1, k2], map[k1 := v1, k2 := v2]);
    assert Run(ls, 3) == Step(ParseState(d2, Some(k2)), ls[2]);
    assert d2.values[k2 := v2 + "\n" + c] == map[k1 := v1, k2 := v2 + "\n" + c];
  }

  lemma ReadTwoThenContinued(k1: string, v1: string, k2: string, v2: string, c: string)
    requires ':' !in k1 && ':' !in k2 && ':' !in c && Trimmed(v1) && Trimmed(v2) && Trimmed(c)
    ensures ReadLines([k1 + ": " + v1, k2 + ": " + v2, c]) == [Entry(k1, v1), Entry(k2, v2), Continued(c)]
  {
    ReadThree(k1 + ": " + v1, k2 + ": " + v2, c);
    ReadLineSpaced(k1, v1);
    ReadLineSpaced(k2, v2);
    assert ReadLine(c) == Continued(c);
  }

  lemma ReadThree(a: string, b: string, c: string)
    ensures ReadLines([a, b, c]) == [ReadLine(a), ReadLine(b), ReadLine(c)]
  {
    var ls := [a, b, c];
    var r := ReadLines(ls);
    assert r == [r[0], r[1], r[2]];
  }

  /** A third line without a colon is added, after a newline, to the value
      of the second key. */
  lemma ParseContinuedValue(k1: string, v1: string, k2: string, v2: string, c: string)
    requires k1 != k2 && k2 != ""
    requires ':' !in k1 && ':' !in k2 && ':' !in c && Trimmed(v1) && Trimmed(v2) && Trimmed(c)
    requires '\n' !in k1 && '\n' !in k2 && '\n' !in v1 && '\n' !in v2 && '\n' !in c
    ensures ParseZabbixMsg(k1 + ": " + v1 + "\n" + k2 + ": " + v2 + "\n" + c)
         == Ok(Dict([k1, k2], map[k1 := v1, k2 := v2 + "\n" + c]))
  {
    var a, b := k1 + ": " + v1, k2 + ": " + v2;
    var lines := [a, b, c];
    JoinThree(a, b, c, '\n');
    assert Join(lines, '\n') == k1 + ": " + v1 + "\n" + k2 + ": " + v2 + "\n" + c;
    ParseJoined(lines);
    ReadTwoThenContinued(k1, v1, k2, v2, c);
    RunTwoThenContinued(ReadLines(lines), k1, v1, k2, v2, c);
  }
}
