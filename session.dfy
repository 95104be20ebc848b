/** The interactive mode of `main` in password_checker.py: each line the
    operator enters is an exit request ('sair' in any letter case), an empty
    line that earns a reminder, or a password to analyse; Ctrl+C restarts the
    prompt.  The operator's input is a sequence of events. */
module Session {

  /** One return from the prompt: a line, or a `KeyboardInterrupt`. */
  datatype InputEvent = Entered(line: string) | Interrupted

  /** What the loop does with an entered line. */
  datatype Action = Exit | Reprompt | Analyse

  /** What the loop prints or does in answer to one event. */
  datatype Reaction = Analysed(password: string) | EmptyNotice | Restarting

  /** Everything the loop did, and whether it stopped at 'sair' (rather
      than because the input ran out). */
  datatype Transcript = Transcript(reactions: seq<Reaction>, exited: bool)

  const ExitWord: string := "sair"

  /** `str.lower()` on one character, ASCII letters only. */
  function LowerChar(c: char): char
  {
    if 'A' <= c <= 'Z' then (c as int - 'A' as int + 'a' as int) as char else c
  }

  function Lower(s: string): (t: string)
    ensures |t| == |s|
    ensures forall i | 0 <= i < |s| :: t[i] == LowerChar(s[i])
  {
    if s == [] then [] else [LowerChar(s[0])] + Lower(s[1..])
  }

  /** `if senha.lower() == 'sair': break` then `if senha: ... else: ...`:
      the empty line, and only it, earns the reminder; an exit request has
      four characters; everything else is analysed. */
  function ClassifyEntry(line: string): (a: Action)
    ensures a == Reprompt <==> line == ""
    ensures a == Exit ==> |line| == 4
    ensures a == Analyse ==> line != "" && Lower(line) != ExitWord
  {
    if Lower(line) == ExitWord then Exit
    else if line == "" then Reprompt
    else Analyse
  }

  /** Exit exactly for the four letters s, a, i, r in any case. */
  lemma ExitIffSairIgnoringCase(line: string)
    ensures ClassifyEntry(line) == Exit <==>
              |line| == 4 &&
              (line[0] == 's' || line[0] == 'S') && (line[1] == 'a' || line[1] == 'A') &&
              (line[2] == 'i' || line[2] == 'I') && (line[3] == 'r' || line[3] == 'R')
  {
    if |line| == 4 {
      var t := Lower(line);
      assert t == [t[0], t[1], t[2], t[3]];
    }
  }

  predicate IsExit(event: InputEvent)
  {
    event.Entered? && ClassifyEntry(event.line) == Exit
  }

  /** The reaction to an event that does not end the loop. */
  function React(event: InputEvent): Reaction
    requires !IsExit(event)
  {
    match event
    case Interrupted => Restarting
    case Entered(line) => if ClassifyEntry(line) == Reprompt then EmptyNotice else Analysed(line)
  }

  /** The loop run over `events`: at most one reaction per event, and a
      clean exit exactly when some event is an exit request. */
  function RunSession(events: seq<InputEvent>): (t: Transcript)
    ensures |t.reactions| <= |events|
    ensures t.exited <==> exists e | e in events :: IsExit(e)
  {
    if events == [] then Transcript([], false)
    else if IsExit(events[0]) then Transcript([], true)
    else
      var rest := RunSession(events[1..]);
      Transcript([React(events[0])] + rest.reactions, rest.exited)
  }

  /** One turn of the loop: the event at `i` ends it or earns one reaction. */
  lemma RunSessionStep(events: seq<InputEvent>, i: nat)
    requires i < |events|
    ensures RunSession(events[i..]) ==
              if IsExit(events[i]) then Transcript([], true)
              else Transcript([React(events[i])] + RunSession(events[i + 1..]).reactions,
                              RunSession(events[i + 1..]).exited)
  {
    assert events[i..][1..] == events[i + 1..];
  }

  /** The `while True` loop of the interactive mode, reading from `events`. */
  method InteractiveLoop(events: seq<InputEvent>) returns (t: Transcript)
    ensures t == RunSession(events)
  {
    var reactions: seq<Reaction> := [];
    var i := 0;
    while i < |events|
      invariant 0 <= i <= |events|
      invariant RunSession(events) ==
                  Transcript(reactions + RunSession(events[i..]).reactions,
                             RunSession(events[i..]).exited)
    {
      RunSessionStep(events, i);
      var event := events[i];
      match event {
        case Interrupted =>
          reactions := reactions + [Restarting];
        case Entered(line) =>
          var action := ClassifyEntry(line);
          if action == Exit {
            return Transcript(reactions, true);
          } else if action == Reprompt {
            reactions := reactions + [EmptyNotice];
          } else {
            reactions := reactions + [Analysed(line)];
          }
      }
      i := i + 1;
    }
    assert events[i..] == [];
    return Transcript(reactions, false);
  }

  /** The loop answers each event before the first exit request with one
      reaction, stops at that request, and reads nothing after it; with no
      exit request it answers every event. */
  lemma {:induction false} RunSessionCharacterised(events: seq<InputEvent>, k: nat)
    requires k <= |events|
    requires forall j | 0 <= j < k :: !IsExit(events[j])
    requires k < |events| ==> IsExit(events[k])
    ensures |RunSession(events).reactions| == k
    ensures forall j | 0 <= j < k :: RunSession(events).reactions[j] == React(events[j])
    ensures RunSession(events).exited <==> k < |events|
  {
    if k > 0 {
      assert !IsExit(events[0]);
      RunSessionCharacterised(events[1..], k - 1);
      var rest := RunSession(events[1..]);
      forall j | 0 <= j < k
        ensures RunSession(events).reactions[j] == React(events[j])
      {
        if j > 0 {
          assert RunSession(events).reactions[j] == rest.reactions[j - 1];
          assert events[1..][j - 1] == events[j];
        }
      }
    }
  }

  /** Every password analysed is a non-empty entered line that is not an
      exit request. */
  lemma {:induction false} AnalysedAreEnteredLines(events: seq<InputEvent>, p: string)
    requires Analysed(p) in RunSession(events).reactions
    ensures Entered(p) in events
    ensures p != "" && ClassifyEntry(p) == Analyse
  {
    if !IsExit(events[0]) {
      if React(events[0]) != Analysed(p) {
        AnalysedAreEnteredLines(events[1..], p);
        assert Entered(p) in events[1..];
      }
    }
  }

  /** The input "" then "sair": one reminder, no analysis, a clean exit. */
  lemma EmptyThenExit()
    ensures RunSession([Entered(""), Entered("sair")]) == Transcript([EmptyNotice], true)
  {
    assert Lower("sair") == ExitWord;
    assert [Entered(""), Entered("sair")][1..] == [Entered("sair")];
  }
}
