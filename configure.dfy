/** Editing the persisted exclusion list: the menu's letter dispatch, the
    numbered listing, adding comma-separated extensions, the one-token-per-line
    file format, removing an entry by its number, and the acknowledgment that
    follows a removal. Prompts become sequences of answers, the file a
    `FileState` plus whether it can be written. */
module Configure {
  import opened Seqs
  import opened PyStrings
  import opened TextFiles

  /** The exceptions that escape the editing functions uncaught. */
  datatype PyError = ValueError | IndexError | UnboundLocalError | EOFError

  /** How an editing function ends: the value it returns, `sys.exit` with the
      success code, or an exception that propagates. */
  datatype Outcome = ReturnedTrue | ReturnedFalse | ReturnedNone | ExitedOk | Raised(error: PyError)

  // ---------------------------------------------------------------------------
  // condition_map

  /** What `condition_map(letter, ...)` runs. Letter "d" maps to
      `lambda x, y: sys.exit`, which returns the function `sys.exit` without
      calling it. */
  datatype Handler = AddHandler | RemoveHandler | HiCountHandler | ReturnExitFunction | NoHandler

  /** `condition_map`: "a", "b", "c" and "d" select their handlers; any other
      letter selects the no-op that returns `None`. */
  function ConditionMap(letter: string): (h: Handler)
    ensures h == NoHandler <==> letter !in {"a", "b", "c", "d"}
    ensures h == AddHandler <==> letter == "a"
    ensures h == RemoveHandler <==> letter == "b"
    ensures h == ReturnExitFunction <==> letter == "d"
  {
    match letter
    case "a" => AddHandler
    case "b" => RemoveHandler
    case "c" => HiCountHandler
    case "d" => ReturnExitFunction
    case _ => NoHandler
  }

  // ---------------------------------------------------------------------------
  // display_exclusions

  /** One line of the listing: a number and the token it stands for. */
  datatype Entry = Entry(number: nat, token: string)

  /** The numbering `display_exclusions` prints: `enumerate` from 0, shown as
      `index + 1`. */
  function Numbered(tokens: seq<string>): (entries: seq<Entry>)
    ensures |entries| == |tokens|
    ensures forall i :: 0 <= i < |tokens| ==> entries[i] == Entry(i + 1, tokens[i])
  {
    seq(|tokens|, i requires 0 <= i < |tokens| => Entry(i + 1, tokens[i]))
  }

  /** What `display_exclusions` does with the file: a missing file leaves
      `exclusions` unbound, so `enumerate(exclusions)` raises
      `UnboundLocalError`, which the `except OSError` does not catch; an
      unreadable file is reported and `False` returned. */
  datatype Display = Shown(entries: seq<Entry>) | Warned | Crashed(error: PyError)

  function DisplayExclusions(f: FileState): (d: Display)
    ensures d.Crashed? <==> f == Absent
    ensures d == Warned <==> f == Unreadable
  {
    match f
    case Absent => Crashed(UnboundLocalError)
    case Unreadable => Warned
    case Present(text) => Shown(Numbered(StrippedLines(text)))
  }

  /** Only a missing file makes the listing crash; a readable file lists its
      tokens in file order, numbered from 1. */
  lemma DisplayedEntries(f: FileState)
    ensures DisplayExclusions(f).Crashed? <==> f == Absent
    ensures DisplayExclusions(f) == Warned <==> f == Unreadable
    ensures f.Present? ==>
      DisplayExclusions(f).Shown? && |DisplayExclusions(f).entries| == |StrippedLines(f.text)|
    ensures f.Present? ==> forall i :: 0 <= i < |StrippedLines(f.text)| ==>
      DisplayExclusions(f).entries[i] == Entry(i + 1, StrippedLines(f.text)[i])
  {
  }

  /** The tokens of all entries except the one numbered `n`. */
  function TokensExcept(entries: seq<Entry>, n: nat): seq<string>
    decreases |entries|
  {
    if entries == [] then []
    else
      var e := entries[|entries| - 1];
      TokensExcept(entries[..|entries| - 1], n) + (if e.number == n then [] else [e.token])
  }

  lemma {:induction false} TokensExceptUnlisted(tokens: seq<string>, n: nat)
    requires n > |tokens|
    ensures TokensExcept(Numbered(tokens), n) == tokens
    decreases |tokens|
  {
    if tokens != [] {
      var init := tokens[..|tokens| - 1];
      assert Numbered(tokens)[..|init|] == Numbered(init);
      TokensExceptUnlisted(init, n);
      assert tokens == init + [tokens[|tokens| - 1]];
    }
  }

  /** Removing position `n - 1` removes exactly the entry the listing numbered
      `n`: the result is the listing's tokens with that entry left out. */
  lemma {:induction false} RemovesNumberedEntry(tokens: seq<string>, n: nat)
    requires 1 <= n <= |tokens|
    ensures Numbered(tokens)[n - 1] == Entry(n, tokens[n - 1])
    ensures RemoveAt(tokens, n - 1) == TokensExcept(Numbered(tokens), n)
    decreases |tokens|
  {
    var init := tokens[..|tokens| - 1];
    var x := tokens[|tokens| - 1];
    var entries := Numbered(tokens);
    assert entries[..|entries| - 1] == Numbered(init);
    assert entries[|entries| - 1] == Entry(|tokens|, x);
    assert TokensExcept(entries, n) ==
      TokensExcept(Numbered(init), n) + (if |tokens| == n then [] else [x]);
    assert tokens == init + [x];
    if n == |tokens| {
      TokensExceptUnlisted(init, n);
      assert RemoveAt(tokens, n - 1) == init;
    } else {
      RemovesNumberedEntry(init, n);
      assert RemoveAt(tokens, n - 1) == RemoveAt(init, n - 1) + [x];
    }
  }

  // ---------------------------------------------------------------------------
  // _configure_add

  /** The normalisation `_configure_add` applies to each comma-separated
      piece: a piece starting with "." is kept as it is, any other gets a "."
      in front. */
  function Dotted(piece: string): (token: string)
    ensures StartsWith(token, ".")
    ensures StartsWith(piece, ".") ==> token == piece
    ensures !StartsWith(piece, ".") ==> token == "." + piece
  {
    if StartsWith(piece, ".") then piece else "." + piece
  }

  /** `[x if x.startswith('.') else '.' + x for x in pieces]`. */
  function DottedAll(pieces: seq<string>): (tokens: seq<string>)
    ensures |tokens| == |pieces|
    ensures forall i :: 0 <= i < |pieces| ==> tokens[i] == Dotted(pieces[i])
  {
    seq(|pieces|, i requires 0 <= i < |pieces| => Dotted(pieces[i]))
  }

  /** The list `_configure_add` writes for a non-empty response: the existing
      tokens, then one token per comma-separated piece of the response, in
      order; nothing is deduplicated and nothing trimmed. */
  function Extended(exclusions: seq<string>, response: string): (r: seq<string>)
    ensures |r| == |exclusions| + Count(response, ',') + 1
    ensures r[..|exclusions|] == exclusions
    ensures forall i :: |exclusions| <= i < |r| ==>
      r[i] == Dotted(Split(response, ',')[i - |exclusions|]) && StartsWith(r[i], ".")
  {
    exclusions + DottedAll(Split(response, ','))
  }

  // ---------------------------------------------------------------------------
  // The file format: _configure_rewrite and the strip-per-line read

  /** The text the list is written as: each token followed by "\n". */
  function Serialize(tokens: seq<string>): (r: string)
    ensures r == [] <==> tokens == []
    ensures tokens != [] ==> r[|r| - 1] == '\n'
    ensures (forall i :: 0 <= i < |tokens| ==> '\n' !in tokens[i]) ==> Count(r, '\n') == |tokens|
    decreases |tokens|
  {
    if tokens == [] then ""
    else
      assert '\n' !in tokens[0] ==> multiset(tokens[0])['\n'] == 0;
      tokens[0] + "\n" + Serialize(tokens[1..])
  }

  lemma {:induction false} SerializeWithoutCarriageReturn(tokens: seq<string>)
    requires forall t :: t in tokens ==> '\r' !in t
    ensures '\r' !in Serialize(tokens)
    decreases |tokens|
  {
    if tokens != [] {
      SerializeWithoutCarriageReturn(tokens[1..]);
    }
  }

  /** `readlines` on the written text gives back one line per token. */
  lemma {:induction false} SplitSerialized(tokens: seq<string>)
    requires forall t :: t in tokens ==> '\n' !in t
    ensures |SplitLines(Serialize(tokens))| == |tokens|
    ensures forall i :: 0 <= i < |tokens| ==> SplitLines(Serialize(tokens))[i] == tokens[i] + "\n"
    decreases |tokens|
  {
    if tokens != [] {
      var t := tokens[0];
      var rest := Serialize(tokens[1..]);
      var s := Serialize(tokens);
      assert s == t + "\n" + rest;
      assert s[..|t|] == t;
      var k := FirstIndex(s, '\n');
      assert s[|t|] == '\n';
      assert '\n' !in t by {
        assert tokens[0] in tokens;
      }
      if k < |t| {
        assert false;
      }
      assert s[k + 1..] == rest;
      assert s[..k + 1] == t + "\n";
      SplitSerialized(tokens[1..]);
    }
  }

  /** The round trip of the exclusion file: writing a list and reading it back
      with `strip()` on every line gives the same list, for tokens without
      line breaks and without whitespace at either end. */
  lemma ReadBack(tokens: seq<string>)
    requires forall t :: t in tokens ==> Storable(t)
    ensures StrippedLines(Serialize(tokens)) == tokens
  {
    var text := Serialize(tokens);
    SerializeWithoutCarriageReturn(tokens);
    TranslateWithoutCarriageReturn(text);
    SplitSerialized(tokens);
    var lines := ReadLines(text);
    forall i | 0 <= i < |tokens| ensures StrippedLines(text)[i] == tokens[i] {
      assert tokens[i] in tokens;
      assert lines[i] == tokens[i] + ['\n'];
      StripTrailingSpace(tokens[i], '\n');
    }
  }

  /** A list read from the file is written back exactly: rewriting it and
      reading again changes nothing. */
  lemma RewriteIsStable(text: string)
    ensures StrippedLines(Serialize(StrippedLines(text))) == StrippedLines(text)
  {
    StrippedLinesStorable(text);
    ReadBack(StrippedLines(text));
  }

  /** After a removal is written, reading the file gives the list without the
      removed position; when the list held no duplicates, the removed token is
      gone from it. */
  lemma RemoveThenReload(text: string, i: nat)
    requires i < |StrippedLines(text)|
    ensures StrippedLines(Serialize(RemoveAt(StrippedLines(text), i))) == RemoveAt(StrippedLines(text), i)
    ensures NoDups(StrippedLines(text)) ==> StrippedLines(text)[i] !in RemoveAt(StrippedLines(text), i)
  {
    var tokens := StrippedLines(text);
    var r := RemoveAt(tokens, i);
    StrippedLinesStorable(text);
    forall k | 0 <= k < |r| ensures Storable(r[k]) {
      if k < i {
        assert r[k] == tokens[k];
      } else {
        assert r[k] == tokens[k + 1];
      }
      assert r[k] in tokens;
    }
    ReadBack(r);
  }

  /** After an addition is written, reading the file gives the extended list,
      so it holds every new token, provided the new tokens are storable (no
      whitespace at the end of a piece, no line break in it). */
  lemma AddThenReload(text: string, response: string)
    requires forall i :: 0 <= i < |Split(response, ',')| ==> Storable(Dotted(Split(response, ',')[i]))
    ensures StrippedLines(Serialize(Extended(StrippedLines(text), response))) ==
      Extended(StrippedLines(text), response)
  {
    var tokens := StrippedLines(text);
    var r := Extended(tokens, response);
    StrippedLinesStorable(text);
    assert r == tokens + DottedAll(Split(response, ','));
    ReadBack(r);
  }

  // ---------------------------------------------------------------------------
  // _configure_remove

  /** How the prompt loop of `_configure_remove` ends: with an accepted number
      and the count of answers read, with an answer `int()` refuses (the
      `ValueError` escapes), or with no answer left. */
  datatype Pick = Picked(number: int, used: nat) | NotANumber(used: nat) | NoMoreInput

  /** `int(answer)` for every answer, in turn. */
  function ParseAll(answers: seq<string>): (parsed: seq<Option<int>>)
    ensures |parsed| == |answers|
    ensures forall i :: 0 <= i < |answers| ==> parsed[i] == ParseInt(answers[i])
  {
    seq(|answers|, i requires 0 <= i < |answers| => ParseInt(answers[i]))
  }

  /** The answer was an integer outside `1..count`: warned about, then
      prompted again. */
  predicate OutOfRange(v: Option<int>, count: nat) {
    v.Some? && !(1 <= v.value <= count)
  }

  /** The prompt loop from the `i`-th answer on, given what `int()` made of
      each answer: `int(answer)` comes first, so an answer that is no integer
      raises; an integer in `range(1, count + 1)` ends the loop; any other
      integer is refused and the loop asks again. */
  function PickFrom(parsed: seq<Option<int>>, count: nat, i: nat): (p: Pick)
    requires i <= |parsed|
    ensures p.Picked? ==> 1 <= p.number <= count && i < p.used <= |parsed|
    ensures p.NotANumber? ==> i < p.used <= |parsed|
    decreases |parsed| - i
  {
    if i == |parsed| then NoMoreInput
    else
      match parsed[i]
      case None => NotANumber(i + 1)
      case Some(v) => if 1 <= v <= count then Picked(v, i + 1) else PickFrom(parsed, count, i + 1)
  }

  /** The prompt loop of `_configure_remove`, reading `answers` in turn. */
  method PromptForNumber(answers: seq<string>, count: nat) returns (pick: Pick)
    ensures pick == PickFrom(ParseAll(answers), count, 0)
  {
    var i := 0;
    while i < |answers|
      invariant i <= |answers|
      invariant PickFrom(ParseAll(answers), count, i) == PickFrom(ParseAll(answers), count, 0)
    {
      var n := ParseInt(answers[i]);
      if n.None? {
        return NotANumber(i + 1);
      }
      if 1 <= n.value <= count {
        return Picked(n.value, i + 1);
      }
      i := i + 1;
    }
    return NoMoreInput;
  }

  /** Every answer the loop reads and passes over is an integer outside
      `1..count`: the loop moves on from an answer for no other reason. */
  lemma {:induction false} SkippedAnswer(parsed: seq<Option<int>>, count: nat, i: nat, j: nat)
    requires i <= j < |parsed|
    requires var p := PickFrom(parsed, count, i); p.NoMoreInput? || j + 1 < p.used
    ensures OutOfRange(parsed[j], count)
    decreases j - i
  {
    if OutOfRange(parsed[i], count) && i < j {
      SkippedAnswer(parsed, count, i + 1, j);
    }
  }

  /** The loop accepts an answer only when it is an integer in `1..count`,
      and every answer before it was an integer outside that range. */
  lemma {:induction false} PickedAnswer(parsed: seq<Option<int>>, count: nat, i: nat, n: int, used: nat)
    requires i <= |parsed| && PickFrom(parsed, count, i) == Picked(n, used)
    ensures 0 < used <= |parsed| && parsed[used - 1] == Some(n) && 1 <= n <= count
    ensures forall j :: i <= j < used - 1 ==> OutOfRange(parsed[j], count)
    decreases |parsed| - i
  {
    if OutOfRange(parsed[i], count) {
      PickedAnswer(parsed, count, i + 1, n, used);
    }
    forall j | i <= j < used - 1 ensures OutOfRange(parsed[j], count) {
      SkippedAnswer(parsed, count, i, j);
    }
  }

  /** The loop gives up early only at an answer that is no integer, after
      answers that were all integers outside the range. */
  lemma {:induction false} RejectedAnswer(parsed: seq<Option<int>>, count: nat, i: nat, used: nat)
    requires i <= |parsed| && PickFrom(parsed, count, i) == NotANumber(used)
    ensures 0 < used <= |parsed| && parsed[used - 1] == None
    ensures forall j :: i <= j < used - 1 ==> OutOfRange(parsed[j], count)
    decreases |parsed| - i
  {
    if OutOfRange(parsed[i], count) {
      RejectedAnswer(parsed, count, i + 1, used);
    }
    forall j | i <= j < used - 1 ensures OutOfRange(parsed[j], count) {
      SkippedAnswer(parsed, count, i, j);
    }
  }

  /** Input runs out only when every answer was an integer outside the
      range. */
  lemma ExhaustedAnswers(parsed: seq<Option<int>>, count: nat, i: nat)
    requires i <= |parsed| && PickFrom(parsed, count, i) == NoMoreInput
    ensures forall j :: i <= j < |parsed| ==> OutOfRange(parsed[j], count)
  {
    forall j | i <= j < |parsed| ensures OutOfRange(parsed[j], count) {
      SkippedAnswer(parsed, count, i, j);
    }
  }

  /** An empty answer reaches `int('')` before the `not answer` test, so it
      raises `ValueError` instead of cancelling the removal. */
  lemma EmptyAnswerRaises(answers: seq<string>, count: nat)
    requires answers != [] && answers[0] == ""
    ensures PickFrom(ParseAll(answers), count, 0) == NotANumber(1)
  {
    assert Strip("") == "";
    assert ParseAll(answers)[0] == ParseInt("") == None;
  }

  /** Typing the number of an entry, in decimal, picks that entry at once,
      whatever answers would have followed. */
  lemma TypedNumberPicks(n: nat, count: nat, rest: seq<string>)
    requires 1 <= n <= count
    ensures PickFrom(ParseAll([NatToString(n)] + rest), count, 0) == Picked(n, 1)
  {
    ParseNatToString(n);
    assert ParseAll([NatToString(n)] + rest)[0] == Some(n);
  }

  /** The answer the loop accepts is never empty, so the `not answer` branch
      after the loop (returning `True` without removing) cannot be taken. */
  lemma AcceptedAnswerNotEmpty(answers: seq<string>, count: nat)
    requires PickFrom(ParseAll(answers), count, 0).Picked?
    ensures answers[PickFrom(ParseAll(answers), count, 0).used - 1] != ""
  {
    var p := PickFrom(ParseAll(answers), count, 0);
    PickedAnswer(ParseAll(answers), count, 0, p.number, p.used);
    assert ParseInt(answers[p.used - 1]).Some?;
  }

  /** What the acknowledgment after a removal prints: the check is whether the
      decimal string of the 0-based index is one of the remaining tokens, and
      the failure message then indexes the remaining list with it. */
  datatype Ack = ReportedSuccess(removed: string) | ReportedFailure(shown: string) | AckIndexError

  function Acknowledge(remaining: seq<string>, index: nat, removed: string): (a: Ack)
    ensures a == ReportedSuccess(removed) <==> NatToString(index) !in remaining
    ensures a.ReportedFailure? <==> NatToString(index) in remaining && index < |remaining|
    ensures a.ReportedFailure? ==> a.shown == remaining[index]
    ensures a == AckIndexError <==> NatToString(index) in remaining && index >= |remaining|
  {
    if NatToString(index) in remaining then
      if index < |remaining| then ReportedFailure(remaining[index]) else AckIndexError
    else
      ReportedSuccess(removed)
  }

  /** When every remaining token starts with ".", as every token added through
      `_configure_add` does, the failure branch cannot fire: a decimal string
      starts with a digit. */
  lemma DottedListsAcknowledged(remaining: seq<string>, index: nat, removed: string)
    requires forall t :: t in remaining ==> StartsWith(t, ".")
    ensures Acknowledge(remaining, index, removed) == ReportedSuccess(removed)
  {
    var s := NatToString(index);
    assert IsDigit(s[0]);
  }

  /** Lists built only by `_configure_add` from a dotted list stay dotted. */
  lemma ExtendedStaysDotted(exclusions: seq<string>, response: string)
    requires forall t :: t in exclusions ==> StartsWith(t, ".")
    ensures forall t :: t in Extended(exclusions, response) ==> StartsWith(t, ".")
  {
    var r := Extended(exclusions, response);
    forall i | 0 <= i < |r| ensures StartsWith(r[i], ".") {
      if i < |exclusions| {
        assert r[i] == r[..|exclusions|][i];
      }
    }
  }

  /** The failure branch does fire on numeric tokens: removing entry 1 from
      `["x", "0"]` leaves `["0"]`, which holds "0", and the removal is reported
      as failed although it succeeded. */
  lemma AcknowledgmentMisreports()
    ensures Acknowledge(RemoveAt(["x", "0"], 0), 0, "x") == ReportedFailure("0")
  {
    assert RemoveAt(["x", "0"], 0) == ["0"];
    assert NatToString(0) == "0";
  }

  /** ... and it can raise: removing entry 2 from `["1", ".py"]` leaves
      `["1"]`, which holds "1", and `f2[1]` is out of range. */
  lemma AcknowledgmentCanRaise()
    ensures Acknowledge(RemoveAt(["1", ".py"], 1), 1, ".py") == AckIndexError
  {
    assert RemoveAt(["1", ".py"], 1) == ["1"];
    assert NatToString(1) == "1";
  }

  // ---------------------------------------------------------------------------
  // The exclusion file and the editing operations

  /** The exclusion file at `expath`: what a read finds there, and whether
      `open(expath, 'w')` succeeds. */
  class ExclusionFile {
    var state: FileState
    const writable: bool

    constructor (state: FileState, writable: bool)
      ensures this.state == state && this.writable == writable
    {
      this.state := state;
      this.writable := writable;
    }

    /** `_configure_rewrite(expath, newlist)`: overwrites the file with one
        token per line; `False` when the file cannot be opened for writing. */
    method Rewrite(newlist: seq<string>) returns (ok: bool)
      modifies this
      ensures ok == writable
      ensures state == if writable then Present(Serialize(newlist)) else old(state)
    {
      if !writable {
        return false;
      }
      state := Present(Serialize(newlist));
      return true;
    }

    /** `_configure_add(expath, exdirpath)` with the typed response as a
        parameter; `None` is the end of input, where `input()` raises
        `EOFError`. */
    method Add(response: Option<string>) returns (outcome: Outcome)
      modifies this
      ensures old(state) == Absent ==> outcome == Raised(UnboundLocalError) && state == old(state)
      ensures old(state) == Unreadable ==> outcome == ReturnedFalse && state == old(state)
      ensures old(state).Present? && response == None ==> outcome == Raised(EOFError) && state == old(state)
      ensures old(state).Present? && response == Some("") ==> outcome == ExitedOk && state == old(state)
      ensures old(state).Present? && response.Some? && response.value != "" && !writable ==>
        outcome == ReturnedFalse && state == old(state)
      ensures old(state).Present? && response.Some? && response.value != "" && writable ==>
        outcome == ReturnedTrue && state == Present(Serialize(Extended(StrippedLines(old(state).text), response.value)))
    {
      var shown := DisplayExclusions(state);
      if shown.Crashed? {
        return Raised(shown.error);
      }
      if !state.Present? {
        return ReturnedFalse;
      }
      var exclusions := StrippedLines(state.text);
      if response.None? {
        return Raised(EOFError);
      }
      if response.value == "" {
        return ExitedOk;
      }
      var addList := Split(response.value, ',');
      exclusions := exclusions + DottedAll(addList);
      if !writable {
        return ReturnedFalse;
      }
      state := Present(Serialize(exclusions));
      return ReturnedTrue;
    }

    /** `_configure_remove(expath, exdirpath)` with the typed answers as a
        parameter. The acknowledgment printed after a removal is returned in
        `ack`. */
    method Remove(answers: seq<string>) returns (outcome: Outcome, ack: Option<Ack>)
      modifies this
      ensures old(state) == Absent ==> outcome == Raised(UnboundLocalError) && ack == None && state == old(state)
      ensures old(state) == Unreadable ==> outcome == ReturnedFalse && ack == None && state == old(state)
      ensures old(state).Present? ==>
        var tokens := StrippedLines(old(state).text);
        match PickFrom(ParseAll(answers), |tokens|, 0)
        case NotANumber(_) => outcome == Raised(ValueError) && ack == None && state == old(state)
        case NoMoreInput => outcome == Raised(EOFError) && ack == None && state == old(state)
        case Picked(n, _) =>
          var remaining := RemoveAt(tokens, n - 1);
          if !writable then
            outcome == ReturnedFalse && ack == None && state == old(state)
          else
            var a := Acknowledge(remaining, n - 1, tokens[n - 1]);
            && state == Present(Serialize(remaining))
            && ack == Some(a)
            && outcome == (if a == AckIndexError then Raised(IndexError) else ReturnedNone)
    {
      ack := None;
      var shown := DisplayExclusions(state);
      if shown.Crashed? {
        return Raised(shown.error), None;
      }
      if !state.Present? {
        return ReturnedFalse, None;
      }
      var f2 := StrippedLines(state.text);
      var pick := PromptForNumber(answers, |f2|);
      match pick {
        case NotANumber(_) =>
          return Raised(ValueError), None;
        case NoMoreInput =>
          return Raised(EOFError), None;
        case Picked(n, _) =>
          outcome, ack := RemoveEntry(f2, n - 1);
      }
    }

    /** The part of `_configure_remove` after a valid number: drop the entry,
        rewrite the file and acknowledge the removal. */
    method RemoveEntry(tokens: seq<string>, index: nat) returns (outcome: Outcome, ack: Option<Ack>)
      requires index < |tokens|
      modifies this
      ensures var remaining := RemoveAt(tokens, index);
        if !writable then
          outcome == ReturnedFalse && ack == None && state == old(state)
        else
          var a := Acknowledge(remaining, index, tokens[index]);
          && state == Present(Serialize(remaining))
          && ack == Some(a)
          && outcome == (if a == AckIndexError then Raised(IndexError) else ReturnedNone)
    {
      var deprecated := tokens[index];
      var f2 := RemoveAt(tokens, index);
      var ok := Rewrite(f2);
      if !ok {
        return ReturnedFalse, None;
      }
      var a := Acknowledge(f2, index, deprecated);
      ack := Some(a);
      outcome := if a == AckIndexError then Raised(IndexError) else ReturnedNone;
    }
  }
}
