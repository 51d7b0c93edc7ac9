/**
 * The click counter (`buttonClickCounter`, an AtomicInteger) and its
 * persisted record, the file count.txt. The record is None when the file does
 * not exist, else its whole text. Saving overwrites the record with the
 * decimal text of the count; loading reads its first line back.
 */
module CounterStore {
  import opened Wrappers
  import opened Http
  import Int32
  import Decimal
  import ButtonClick

  predicate IsLineTerminator(c: char) {
    c == '\n' || c == '\r'
  }

  /** The longest prefix of `text` that holds no line terminator. */
  function LineText(text: string): (line: string)
    ensures line <= text
    ensures forall i | 0 <= i < |line| :: !IsLineTerminator(line[i])
    ensures |line| == |text| || IsLineTerminator(text[|line|])
  {
    if text == [] || IsLineTerminator(text[0]) then [] else [text[0]] + LineText(text[1..])
  }

  /** `BufferedReader.readLine()` on a fresh reader: no line at end of input, else the text before the first terminator. */
  function ReadLine(text: string): (r: Option<string>)
    ensures r.None? <==> text == []
    ensures r.Some? ==> r.value == LineText(text)
  {
    if text == [] then None else Some(LineText(text))
  }

  /**
   * `loadCountFromFile`: 0 when the file is missing, when it has no first
   * line, or when that line is not a 32-bit decimal int; else the parsed line.
   */
  function LoadCount(record: Option<string>): (n: int)
    ensures Int32.InRange(n)
  {
    match record
    case None => 0
    case Some(text) =>
      match ReadLine(text)
      case None => 0
      case Some(line) =>
        match Decimal.ParseInt(line)
        case None => 0
        case Some(v) => v
  }

  /**
   * How one `saveCountToFile` attempt ends. `new FileWriter(path, false)`
   * empties count.txt when it opens it, and the buffered text reaches the file
   * only when the writer is closed. So the write either completes, or fails
   * to open (the file is untouched), or fails after the open, leaving the
   * first `kept` characters of the text (none at all when `kept` is 0).
   */
  datatype WriteOutcome = Written | OpenFailed | FailedAfterOpen(kept: nat)

  /** The record after a `saveCountToFile` attempt for `count` that ended with `write`. */
  function SavedRecord(record: Option<string>, count: int, write: WriteOutcome): (r: Option<string>)
    ensures write.Written? ==> r.Some? && LoadCount(r) == if Int32.InRange(count) then count else 0
    ensures write.OpenFailed? ==> r == record
    ensures write.FailedAfterOpen? ==>
      r.Some? && r.value <= Decimal.ValueOf(count) &&
      |r.value| == (if write.kept < |Decimal.ValueOf(count)| then write.kept else |Decimal.ValueOf(count)|)
  {
    match write
    case Written =>
      LoadSaved(count);
      Some(Decimal.ValueOf(count))
    case OpenFailed => record
    case FailedAfterOpen(kept) =>
      var text := Decimal.ValueOf(count);
      Some(text[..if kept < |text| then kept else |text|])
  }

  /** A save that fails after the open with nothing written leaves an empty count.txt, which loads as 0. */
  lemma EmptiedRecordLoadsZero(record: Option<string>, count: int)
    ensures LoadCount(SavedRecord(record, count, FailedAfterOpen(0))) == 0
  {
  }

  /**
   * A save of a non-negative count that fails after writing only some of its
   * digits leaves a shorter number, which is what the next start loads: not
   * the count, not the previous record, and never more than the count.
   */
  lemma CutShortRecordLoadsPrefix(record: Option<string>, count: int, kept: nat)
    requires 0 <= count <= Int32.MAX
    requires 0 < kept < |Decimal.ValueOf(count)|
    ensures LoadCount(SavedRecord(record, count, FailedAfterOpen(kept))) ==
            Decimal.DigitsValue(Decimal.ValueOf(count)[..kept])
    ensures LoadCount(SavedRecord(record, count, FailedAfterOpen(kept))) <= count
  {
    var text := Decimal.ValueOf(count);
    var cut := text[..kept];
    assert Decimal.AllDigits(cut);
    Decimal.DigitsValuePrefix(text, kept);
    Decimal.DigitsValueOfNatDigits(count);
    LineTextOfSingleLine(cut);
    assert Decimal.IsDigit(cut[0]);
  }

  /** A line with no terminator in it is its own first line. */
  lemma LineTextOfSingleLine(line: string)
    requires forall i | 0 <= i < |line| :: !IsLineTerminator(line[i])
    ensures LineText(line) == line
  {
  }

  /** Loading a record written for `n` gives `n` back (a count outside 32 bits would read as 0). */
  lemma LoadSaved(n: int)
    ensures LoadCount(Some(Decimal.ValueOf(n))) == if Int32.InRange(n) then n else 0
  {
    var text := Decimal.ValueOf(n);
    LineTextOfSingleLine(text);
    Decimal.ParseValueOf(n);
  }

  /** Only the first line of the record counts: whatever follows its terminator is ignored. */
  lemma LoadIgnoresLaterLines(line: string, terminator: char, rest: string)
    requires forall i | 0 <= i < |line| :: !IsLineTerminator(line[i])
    requires IsLineTerminator(terminator)
    ensures LoadCount(Some(line + [terminator] + rest)) ==
            match Decimal.ParseInt(line) case Some(v) => v case None => 0
  {
    var text := line + [terminator] + rest;
    var l := LineText(text);
    assert forall i | 0 <= i < |line| :: text[i] == line[i];
    assert text[|line|] == terminator;
    assert |l| == |line|;
    assert forall i | 0 <= i < |l| :: l[i] == line[i];
    assert l == line;
    assert text != [];
  }

  /** A record that is empty, or whose text starts with neither a digit nor a sign, loads as 0. */
  lemma LoadCorruptIsZero(text: string)
    requires text == [] || (!Decimal.IsDigit(text[0]) && text[0] != '-' && text[0] != '+')
    ensures LoadCount(Some(text)) == 0
  {
  }

  /** Counter and record together: what one request sees and leaves. */
  datatype State = State(value: int, record: Option<string>)

  /** A request to "/button-click": its method, and how the write to count.txt would end. */
  datatype Request = Request(requestMethod: string, write: WriteOutcome)

  datatype Outcome = Outcome(state: State, answer: ButtonClick.Answer)

  /** The record holds exactly the decimal text of the counter. */
  predicate Persisted(s: State) {
    s.record == Some(Decimal.ValueOf(s.value))
  }

  /**
   * `ButtonClickHandler.handle`: OPTIONS answers the preflight; POST adds one
   * (MAX is followed by MIN), saves and answers the new count; any other
   * method is refused. Only POST touches the counter or the record.
   */
  function ButtonClickStep(s: State, req: Request): (o: Outcome)
    requires Int32.InRange(s.value)
    ensures Int32.InRange(o.state.value) && ButtonClick.Renderable(o.answer)
    ensures req.requestMethod == "OPTIONS" ==> o == Outcome(s, ButtonClick.Preflight)
    ensures req.requestMethod == "POST" ==>
      o.state.value == Int32.Inc(s.value) && o.answer == ButtonClick.Count(o.state.value) &&
      o.state.record == SavedRecord(s.record, o.state.value, req.write) &&
      (req.write.Written? ==> Persisted(o.state))
    ensures req.requestMethod != "OPTIONS" && req.requestMethod != "POST" ==>
      o == Outcome(s, ButtonClick.NotAllowed)
  {
    if req.requestMethod == "OPTIONS" then
      Outcome(s, ButtonClick.Preflight)
    else if req.requestMethod == "POST" then
      var n := Int32.Inc(s.value);
      Outcome(State(n, SavedRecord(s.record, n, req.write)), ButtonClick.Count(n))
    else
      Outcome(s, ButtonClick.NotAllowed)
  }

  /** Startup: the counter loaded from the record, as `main` sets it before serving. */
  function StartState(record: Option<string>): (s: State)
    ensures Int32.InRange(s.value) && s.record == record
  {
    State(LoadCount(record), record)
  }

  /** The counter store as the server holds it: the atomic counter and the file count.txt. */
  class Counter {
    var value: int
    var record: Option<string>

    ghost predicate Valid()
      reads this
    {
      Int32.InRange(value)
    }

    ghost function Snapshot(): State
      reads this
    {
      State(value, record)
    }

    /** `main`, lines 25-26: the counter starts at 0 and is then set to the loaded count. */
    constructor Start(persisted: Option<string>)
      ensures Valid() && Snapshot() == StartState(persisted)
    {
      value := 0;
      record := persisted;
      var saved := LoadCount(persisted);
      value := saved;
    }

    /** `AtomicInteger.incrementAndGet`, taken as one sequential step: add one with 32-bit wrap-around. */
    method IncrementAndGet() returns (n: int)
      requires Valid()
      modifies this`value
      ensures Valid() && n == value && value == Int32.Inc(old(value))
    {
      value := Int32.Inc(value);
      n := value;
    }

    /**
     * `saveCountToFile`: open count.txt for overwriting (which empties it),
     * then write the count's decimal text; `write` says how far that gets.
     */
    method SaveCount(count: int, write: WriteOutcome)
      requires Valid()
      modifies this`record
      ensures Valid() && record == SavedRecord(old(record), count, write)
    {
      if write.OpenFailed? {
        return;
      }
      var text := Decimal.ValueOf(count);
      record := Some([]);
      match write
      case Written =>
        record := Some(text);
      case FailedAfterOpen(kept) =>
        record := Some(text[..if kept < |text| then kept else |text|]);
    }

    /** `ButtonClickHandler.handle` on this store. */
    method HandleButtonClick(requestMethod: string, write: WriteOutcome) returns (r: Response)
      requires Valid()
      modifies this
      ensures Valid()
      ensures var o := ButtonClickStep(old(Snapshot()), Request(requestMethod, write));
        Snapshot() == o.state && r == ButtonClick.Render(o.answer)
    {
      if requestMethod == "OPTIONS" {
        r := ButtonClick.PreflightResponse();
        return;
      }
      if requestMethod == "POST" {
        var currentCount := IncrementAndGet();
        SaveCount(currentCount, write);
        r := ButtonClick.CountResponse(currentCount);
      } else {
        r := ButtonClick.NotAllowedResponse();
      }
    }
  }
}
