/** The single-page workflow of `App.tsx`: the initial generation, the
    per-section modification with its busy guard, the error state that a timer
    later reverts, and the submit button's enabling rule. Remote results are
    inputs; a timer firing is an explicit event. */
module App {
  import opened Results
  import opened Text
  import opened Prompt

  /** The session: the input, the record and image shown, the workflow state, and
      the revert timers still pending, oldest first (they all wait the same three
      seconds, so they fire in the order they were set). */
  datatype Session = Session(userInput: string, promptData: PromptStructure, state: AppState, image: Option<string>, timers: seq<AppState>)

  const Start: Session := Session("", Empty, Idle, None, [])

  /** The arguments of an `expandPrompt` call: the idea, the record to refine, and
      the instruction saying how. */
  datatype ExpandRequest = ExpandRequest(input: string, current: Option<PromptStructure>, instruction: Option<string>)

  /** The instruction sent with a modification: `For the <section>, please: <instruction>`. */
  function ModificationText(section: Key, instruction: string): string {
    "For the " + Name(section) + ", please: " + instruction
  }

  /** The instruction text names the section and the user's words unambiguously:
      no two modifications produce the same text. */
  lemma ModificationTextInjective(a: Key, x: string, b: Key, y: string)
    requires ModificationText(a, x) == ModificationText(b, y)
    ensures a == b && x == y
  {
    var na, nb := Name(a), Name(b);
    Regroup("For the ", na, ", please: ", x);
    Regroup("For the ", nb, ", please: ", y);
    StripPrefix("For the ", na + ", please: " + x, nb + ", please: " + y);
    NameHasNoComma(a);
    NameHasNoComma(b);
    SplitAtComma(na, x, nb, y);
    NameInjective(a, b);
  }

  /** The request `handleModification` sends: the idea, the record shown, and the
      instruction naming the section. */
  function ModificationRequest(s: Session, section: Key, instruction: string): (q: ExpandRequest)
    ensures q.input == s.userInput && q.current == Some(s.promptData)
    ensures q.instruction == Some(ModificationText(section, instruction))
  {
    ExpandRequest(s.userInput, Some(s.promptData), Some(ModificationText(section, instruction)))
  }

  /** From one session, different modifications send different requests: the
      model receives the section and the instruction the user chose. */
  lemma ModificationRequestsDiffer(s: Session, a: Key, x: string, b: Key, y: string)
    ensures ModificationRequest(s, a, x) == ModificationRequest(s, b, y) ==> a == b && x == y
  {
    if ModificationRequest(s, a, x) == ModificationRequest(s, b, y) {
      ModificationTextInjective(a, x, b, y);
    }
  }

  lemma NameHasNoComma(k: Key)
    ensures forall i :: 0 <= i < |Name(k)| ==> Name(k)[i] != ','
  {
  }

  lemma NameInjective(a: Key, b: Key)
    ensures Name(a) == Name(b) ==> a == b
  {
  }

  lemma Regroup(a: string, b: string, c: string, d: string)
    ensures a + b + c + d == a + (b + c + d)
  {
  }

  lemma StripPrefix(p: string, u: string, v: string)
    requires p + u == p + v
    ensures u == v
  {
    assert u == (p + u)[|p|..];
    assert v == (p + v)[|p|..];
  }

  /** Two comma-free names, each followed by `, please: ` and a text, give the same
      string only when names and texts agree. */
  lemma SplitAtComma(n1: string, x1: string, n2: string, x2: string)
    requires forall i :: 0 <= i < |n1| ==> n1[i] != ','
    requires forall i :: 0 <= i < |n2| ==> n2[i] != ','
    requires n1 + ", please: " + x1 == n2 + ", please: " + x2
    ensures n1 == n2 && x1 == x2
  {
    var u := n1 + ", please: " + x1;
    var v := n2 + ", please: " + x2;
    assert u[|n1|] == ',' && v[|n2|] == ',';
    assert forall i :: 0 <= i < |n1| ==> u[i] == n1[i];
    assert forall i :: 0 <= i < |n2| ==> v[i] == n2[i];
    assert |n1| == |n2|;
    assert n1 == u[..|n1|] == n2;
    assert x1 == u[|n1| + 10..] == x2;
  }

  /** Typing into the input. */
  function SetInput(s: Session, value: string): (r: Session)
    ensures r.userInput == value && r.promptData == s.promptData && r.state == s.state
    ensures r.image == s.image && r.timers == s.timers
  {
    s.(userInput := value)
  }

  /** A request starts: the state becomes `expanding_prompt` and the revert timers
      left by earlier failures are cancelled, so none of them can fire into the
      new request (see `BeginAsWritten`). */
  function Begin(s: Session): (r: Session)
    ensures r.state == ExpandingPrompt && r.timers == []
    ensures r.userInput == s.userInput && r.promptData == s.promptData && r.image == s.image
  {
    s.(state := ExpandingPrompt, timers := [])
  }

  /** A request starts as the source does it: earlier timers stay pending. */
  function BeginAsWritten(s: Session): (r: Session)
    ensures r.state == ExpandingPrompt && r.timers == s.timers
  {
    s.(state := ExpandingPrompt)
  }

  /** The `onUpdate` callback: the announced fields overwrite the shown ones. */
  function ApplyPartial(s: Session, partial: Partial): (r: Session)
    ensures forall k :: Get(r.promptData, k) == if k in partial then partial[k] else Get(s.promptData, k)
    ensures r == s.(promptData := r.promptData)
  {
    s.(promptData := Merge(s.promptData, partial))
  }

  /** All the announcements in turn: the record becomes their merge over the one
      shown, and nothing else changes. */
  function ApplyAll(s: Session, updates: seq<Partial>): (r: Session)
    ensures r == s.(promptData := MergeAll(s.promptData, updates))
  {
    if |updates| == 0 then s else ApplyPartial(ApplyAll(s, updates[..|updates| - 1]), updates[|updates| - 1])
  }

  /** A failure: the state becomes `error` and a timer is set to move it to `target`. */
  function Fail(s: Session, target: AppState): (r: Session)
    ensures r.state == Error && r.timers == s.timers + [target]
    ensures r.promptData == s.promptData && r.image == s.image && r.userInput == s.userInput
  {
    s.(state := Error, timers := s.timers + [target])
  }

  /** The oldest pending timer fires and sets its state. */
  function TimerFired(s: Session): (r: Session)
    ensures s.timers == [] ==> r == s
    ensures s.timers != [] ==> r == s.(state := s.timers[0], timers := s.timers[1..])
  {
    if s.timers == [] then s else s.(state := s.timers[0], timers := s.timers[1..])
  }

  /** The rest of a request after it started: the partial records are shown as
      they come; then the final record is shown and the image requested, and the
      image shown on success; any failure moves to `error` with a timer to `revert`. */
  function Finish(s: Session, expansion: Expansion, image: Result<string>, revert: AppState): (r: Session)
    ensures !Busy(r.state)
    ensures r.state == Complete <==> expansion.result.Success? && image.Success?
    ensures r.state == Complete ==> r.image == Some(image.value) && r.promptData == expansion.result.value && r.timers == s.timers
    ensures r.state == Error ==> r.image == s.image && r.timers == s.timers + [revert]
    ensures expansion.result.Failure? ==> r.promptData == MergeAll(s.promptData, expansion.updates)
    ensures expansion.result.Success? ==> r.promptData == expansion.result.value
    ensures r.userInput == s.userInput
  {
    var streaming := ApplyAll(s, expansion.updates);
    if expansion.result.Failure? then Fail(streaming, revert)
    else
      var expanded := streaming.(promptData := expansion.result.value, state := GeneratingImage);
      if image.Failure? then Fail(expanded, revert)
      else expanded.(image := Some(image.value), state := Complete)
  }

  /** `handleInitialGenerate`. Whitespace-only input changes nothing. Otherwise
      the image is cleared and the record reset, the request runs, and it ends
      `complete` with the image, or `error` with a timer back to `idle`. */
  function RunInitial(s: Session, expansion: Expansion, image: Result<string>): (r: Session)
    ensures Blank(s.userInput) ==> r == s
    ensures !Blank(s.userInput) && r.state == Error ==> r.timers == [Idle] && r.image.None?
    ensures !Blank(s.userInput) ==> (r.state == Complete <==> expansion.result.Success? && image.Success?)
    ensures !Blank(s.userInput) && r.state == Complete ==> r.image == Some(image.value)
    ensures !Blank(s.userInput) && expansion.result.Failure? ==> r.promptData == MergeAll(Empty, expansion.updates)
    ensures !Blank(s.userInput) && expansion.result.Success? ==> r.promptData == expansion.result.value
  {
    if Blank(s.userInput) then s
    else Finish(Begin(s).(image := None, promptData := Empty), expansion, image, Idle)
  }

  /** `handleModification`. Refused while a request is in flight. Otherwise the
      record is re-expanded by `expand` from the modification request and the image
      regenerated; on failure the timer reverts to `complete` when the session was
      complete before, and to `idle` otherwise. The image shown is kept meanwhile. */
  function RunModification(s: Session, section: Key, instruction: string, expand: ExpandRequest -> Expansion, image: Result<string>): (r: Session)
    ensures Busy(s.state) ==> r == s
    ensures !Busy(s.state) && r.state == Error ==>
              r.timers == [if s.state == Complete then Complete else Idle] && r.image == s.image
    ensures !Busy(s.state) ==>
              var e := expand(ModificationRequest(s, section, instruction));
              && (r.state == Complete <==> e.result.Success? && image.Success?)
              && (r.state == Complete ==> r.image == Some(image.value))
              && (e.result.Failure? ==> r.promptData == MergeAll(s.promptData, e.updates))
              && (e.result.Success? ==> r.promptData == e.result.value)
  {
    if Busy(s.state) then s
    else Finish(Begin(s), expand(ModificationRequest(s, section, instruction)), image, if s.state == Complete then Complete else Idle)
  }

  /** `handleInitialGenerate` as the source writes it: pending revert timers stay. */
  function RunInitialAsWritten(s: Session, expansion: Expansion, image: Result<string>): (r: Session)
    ensures Blank(s.userInput) ==> r == s
    ensures !Blank(s.userInput) && r.state == Error ==> r.timers == s.timers + [Idle] && r.image.None?
    ensures !Blank(s.userInput) ==> (r.state == Complete <==> expansion.result.Success? && image.Success?)
    ensures !Blank(s.userInput) && r.state == Complete ==> r.image == Some(image.value)
    ensures !Blank(s.userInput) && expansion.result.Failure? ==> r.promptData == MergeAll(Empty, expansion.updates)
    ensures !Blank(s.userInput) && expansion.result.Success? ==> r.promptData == expansion.result.value
  {
    if Blank(s.userInput) then s
    else Finish(BeginAsWritten(s.(image := None, promptData := Empty)), expansion, image, Idle)
  }

  /** `handleModification` as the source writes it: pending revert timers stay. */
  function RunModificationAsWritten(s: Session, section: Key, instruction: string, expand: ExpandRequest -> Expansion, image: Result<string>): (r: Session)
    ensures Busy(s.state) ==> r == s
    ensures !Busy(s.state) && r.state == Error ==>
              r.timers == s.timers + [if s.state == Complete then Complete else Idle] && r.image == s.image
    ensures !Busy(s.state) ==>
              var e := expand(ModificationRequest(s, section, instruction));
              && (r.state == Complete <==> e.result.Success? && image.Success?)
              && (r.state == Complete ==> r.image == Some(image.value))
              && (e.result.Failure? ==> r.promptData == MergeAll(s.promptData, e.updates))
              && (e.result.Success? ==> r.promptData == e.result.value)
  {
    if Busy(s.state) then s
    else Finish(BeginAsWritten(s), expand(ModificationRequest(s, section, instruction)), image, if s.state == Complete then Complete else Idle)
  }

  /** The submit button: enabled only with a non-empty input and no request in flight. */
  function SubmitEnabled(s: Session): (r: bool)
    ensures r <==> s.userInput != "" && (s.state == Idle || s.state == Complete || s.state == Error)
  {
    !(s.userInput == "" || (s.state != Idle && s.state != Complete && s.state != Error))
  }

  /** Nothing in flight; a complete session shows an image; at most one revert is
      pending, only in `error`, towards `idle` or towards `complete` with an image. */
  predicate Settled(s: Session) {
    && !Busy(s.state)
    && (s.state == Complete ==> s.image.Some?)
    && |s.timers| <= 1
    && (|s.timers| == 1 ==> s.state == Error && (s.timers[0] == Idle || (s.timers[0] == Complete && s.image.Some?)))
  }

  /** A request that starts from a settled session and finishes, reverting to
      `idle` or to `complete` with an image shown, leaves the session settled. */
  lemma FinishKeepsSettled(s: Session, expansion: Expansion, image: Result<string>, revert: AppState)
    requires s.timers == [] && (revert == Idle || (revert == Complete && s.image.Some?))
    ensures Settled(Finish(s, expansion, image, revert))
  {
  }

  /** Every handler and every timer, from a settled session, leaves it settled. */
  lemma InitialKeepsSettled(s: Session, expansion: Expansion, image: Result<string>)
    requires Settled(s)
    ensures Settled(RunInitial(s, expansion, image))
  {
    if !Blank(s.userInput) {
      FinishKeepsSettled(Begin(s).(image := None, promptData := Empty), expansion, image, Idle);
    }
  }

  lemma ModificationKeepsSettled(s: Session, section: Key, instruction: string, expand: ExpandRequest -> Expansion, image: Result<string>)
    requires Settled(s)
    ensures Settled(RunModification(s, section, instruction, expand, image))
  {
    FinishKeepsSettled(Begin(s), expand(ModificationRequest(s, section, instruction)), image, if s.state == Complete then Complete else Idle);
  }

  lemma TimerKeepsSettled(s: Session, value: string)
    requires Settled(s)
    ensures Settled(TimerFired(s)) && Settled(SetInput(s, value))
  {
  }

  /** A failed initial generation shows `error`, then `idle` once the timer fires. */
  lemma InitialFailureRevertsToIdle(s: Session, expansion: Expansion, image: Result<string>)
    requires !Blank(s.userInput) && (expansion.result.Failure? || image.Failure?)
    ensures RunInitial(s, expansion, image).state == Error
    ensures TimerFired(RunInitial(s, expansion, image)).state == Idle
  {
  }

  /** A failed modification shows `error`, then returns to `complete` — with the
      image still shown — when the session was complete, and to `idle` otherwise. */
  lemma ModificationFailureReverts(s: Session, section: Key, instruction: string, expand: ExpandRequest -> Expansion, image: Result<string>)
    requires Settled(s) && (expand(ModificationRequest(s, section, instruction)).result.Failure? || image.Failure?)
    ensures RunModification(s, section, instruction, expand, image).state == Error
    ensures TimerFired(RunModification(s, section, instruction, expand, image)).state == (if s.state == Complete then Complete else Idle)
    ensures s.state == Complete ==> TimerFired(RunModification(s, section, instruction, expand, image)).image == s.image
  {
  }

  /** While a request is in flight no timer is pending, so no timer can change its state. */
  lemma TimerCannotInterrupt(s: Session, updates: seq<Partial>)
    ensures TimerFired(ApplyAll(Begin(s), updates)) == ApplyAll(Begin(s), updates)
  {
  }

  /** As the source is written, a revert timer set by a failure keeps running when
      the user starts again within three seconds: it fires during the new request,
      moving the state to `idle` and enabling submit while the request is in flight. */
  lemma StaleTimerCounterexample()
    ensures var s := Session("a deer", Empty, Error, None, [Idle]);
            var running := BeginAsWritten(s.(image := None, promptData := Empty));
            Busy(running.state) && !SubmitEnabled(running) &&
            TimerFired(running).state == Idle && SubmitEnabled(TimerFired(running))
  {
  }
}
