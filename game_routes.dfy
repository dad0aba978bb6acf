/** The game routes: the game page, which creates a record for a new
    session, and answer submission, which drives the record through the
    transition of the Progression module. The database lookups arrive as
    parameters: `progress` is the record the session id resolves to, or
    null, and `catalog` holds every riddle by id. */
module GameRoutes {
  import opened Wrappers
  import opened Strings
  import opened Answers
  import opened Models
  import opened Failures
  import opened Progression
  import opened Motivation

  /** `check_app_access`: a missing configuration row stands for the
      default one, which is open. */
  predicate Accessible(config: AppConfig?, now: int)
    reads config
  {
    config == null || config.IsAccessible(now)
  }

  // ---------------------------------------------------------------------
  // The game page (routes.py:79-136)

  datatype GameView = GameView(
    riddleId: int,
    riddle: Riddle,
    completedCount: nat,
    totalEnigmas: nat,
    position: int)

  /** Shows the current riddle, creating the record first for a session
      that has none. `newId` is the id the database assigns to it. */
  method Game(config: AppConfig?, now: int, sessionId: string, progress: UserProgress?,
              newId: int, catalog: Catalog)
    returns (r: Result<GameView, Failure>, record: UserProgress?)
    ensures !Accessible(config, now) ==> r == Failure(Unavailable) && record == progress
    ensures progress != null ==> record == progress
    ensures Accessible(config, now) && progress == null && catalog == map[] ==>
      r == Failure(EmptyCatalog) && record == null
    ensures Accessible(config, now) && progress == null && catalog != map[] ==>
      && record != null && fresh(record) && record.order != []
      && record.Snapshot() == StartRow(newId, sessionId, record.order)
      && Consistent(record.Snapshot(), catalog) && Shuffled(record.Snapshot(), catalog)
    ensures Accessible(config, now) && record != null ==>
      && (record.current !in catalog ==> r == Failure(EnigmaLoadError))
      && (record.current in catalog && record.current !in record.order ==> r == Failure(NotInOrder))
      && (record.current in catalog && record.current in record.order ==>
            r == Success(GameView(record.current, catalog[record.current], |record.completed|,
                                  |record.order|, IndexOf(record.order, record.current) + 1)))
    ensures r.Success? ==> 1 <= r.value.position <= r.value.totalEnigmas
  {
    record := progress;
    if !Accessible(config, now) {
      return Failure(Unavailable), record;
    }
    if record == null {
      if catalog == map[] {
        return Failure(EmptyCatalog), record;
      }
      var order := Shuffle(catalog.Keys);
      record := new UserProgress(newId, sessionId, order[0]);
      record.order := order;
      StartRowInvariants(catalog, newId, sessionId, order);
    }
    if record.current !in catalog {
      return Failure(EnigmaLoadError), record;
    }
    var k := IndexOf(record.order, record.current);
    if k < 0 {
      return Failure(NotInOrder), record;
    }
    r := Success(GameView(record.current, catalog[record.current], |record.completed|,
                          |record.order|, k + 1));
  }

  // ---------------------------------------------------------------------
  // Answer submission (routes.py:139-240)

  datatype ProgressSummary = ProgressSummary(completedCount: nat, totalEnigmas: nat, totalPoints: int)

  datatype SubmitReply = SubmitReply(
    isCorrect: bool,
    feedback: string,
    completedAll: bool,
    nextEnigma: bool,
    summary: Option<ProgressSummary>,
    milestone: Option<Message>)

  /** The submitted answer as the route compares it: stripped and
      lower-cased, with a missing field read as the empty string. */
  function UserAnswer(answer: Option<string>): string {
    Lower(Strip(answer.GetOr("")))
  }

  /** The checks made before the answer is evaluated, in the route's order. */
  function Rejection(config: AppConfig?, now: int, hasSession: bool, hasRecord: bool,
                     answer: Option<string>, enigmaId: Option<int>, catalog: Catalog): (f: Option<Failure>)
    reads config
    ensures f.None? <==> Accessible(config, now) && hasSession && UserAnswer(answer) != []
                         && enigmaId.Some? && enigmaId.value != 0 && enigmaId.value in catalog && hasRecord
    ensures !Accessible(config, now) ==> f == Some(Unavailable)
    ensures Accessible(config, now) && !hasSession ==> f == Some(SessionExpired)
    ensures Accessible(config, now) && hasSession && (UserAnswer(answer) == [] || enigmaId.None? || enigmaId.value == 0) ==>
      f == Some(InvalidSubmission)
    ensures Accessible(config, now) && hasSession && UserAnswer(answer) != []
            && enigmaId.Some? && enigmaId.value != 0 && enigmaId.value !in catalog ==>
      f == Some(EnigmaNotFound)
    ensures Accessible(config, now) && hasSession && UserAnswer(answer) != []
            && enigmaId.Some? && enigmaId.value != 0 && enigmaId.value in catalog && !hasRecord ==>
      f == Some(ProgressNotFound)
  {
    if !Accessible(config, now) then Some(Unavailable)
    else if !hasSession then Some(SessionExpired)
    else if UserAnswer(answer) == [] || enigmaId.None? || enigmaId.value == 0 then Some(InvalidSubmission)
    else if enigmaId.value !in catalog then Some(EnigmaNotFound)
    else if !hasRecord then Some(ProgressNotFound)
    else None
  }

  /** The reply to a correct answer to `id`, given the record before and
      after it: the completed-all and next-riddle flags only on a first
      answer, and the milestone on every correct answer. */
  function CorrectReply(before: ProgressRow, after: ProgressRow, riddle: Riddle, catalog: Catalog,
                        id: int, pick: nat): SubmitReply
  {
    SubmitReply(true, riddle.correctFeedback,
                id !in before.completed && |after.completed| >= |catalog|,
                HasNext(before, id),
                Some(ProgressSummary(|after.completed|, |catalog|, after.points)),
                MotivationalMessage(|after.completed|, |catalog|, pick))
  }

  /** Applies the correct-answer transition to the record in place;
      `applied` is false, and nothing is changed, where `list.index` would
      raise before the commit. */
  method RecordCorrectAnswer(progress: UserProgress, catalog: Catalog, id: int)
    returns (applied: bool, completedAll: bool, nextEnigma: bool)
    modifies progress
    ensures match AnswerCorrectly(old(progress.Snapshot()), catalog, id)
      case None => !applied && unchanged(progress)
      case Some(after) =>
        && applied && progress.Snapshot() == after
        && completedAll == (id !in old(progress.completed) && |after.completed| >= |catalog|)
        && nextEnigma == HasNext(old(progress.Snapshot()), id)
    ensures id in catalog && old(Consistent(progress.Snapshot(), catalog)) ==>
      Consistent(progress.Snapshot(), catalog)
    ensures id in catalog && old(Shuffled(progress.Snapshot(), catalog)) ==>
      Shuffled(progress.Snapshot(), catalog)
    ensures old(progress.eligible) ==> progress.eligible
  {
    ghost var before := progress.Snapshot();
    applied, completedAll, nextEnigma := true, false, false;
    if id in progress.completed {
      return;
    }
    var k := IndexOf(progress.order, id);
    if k < 0 {
      return false, false, false;
    }
    progress.completed := progress.completed + [id];
    progress.points := progress.points + PointsOf(catalog, id);
    if |progress.completed| >= |catalog| {
      progress.eligible := true;
      completedAll := true;
    }
    if k + 1 < |progress.order| {
      progress.current := progress.order[k + 1];
      nextEnigma := true;
    }
    if id in catalog {
      AnswerPreservesInvariants(before, catalog, id);
    }
  }

  /** The reply and the new record value once a submission has passed the
      checks: an incorrect answer changes nothing; a correct one applies
      the transition, or fails where the id is not in the order. */
  function Evaluation(before: ProgressRow, riddle: Riddle, catalog: Catalog, id: int,
                      userAnswer: string, pick: nat): (Result<SubmitReply, Failure>, ProgressRow)
  {
    if !AnswerMatches(riddle.answer, userAnswer) then
      (Success(SubmitReply(false, riddle.incorrectFeedback, false, false, None, None)), before)
    else match AnswerCorrectly(before, catalog, id)
      case None => (Failure(NotInOrder), before)
      case Some(after) => (Success(CorrectReply(before, after, riddle, catalog, id, pick)), after)
  }

  /** Only an accepted correct answer changes the record, a correct answer
      is accepted exactly when the id was solved or is in the order, and no
      submission takes eligibility away. */
  lemma EvaluationChangesOnlyOnSuccess(before: ProgressRow, riddle: Riddle, catalog: Catalog, id: int,
                                       userAnswer: string, pick: nat)
    ensures var (r, after) := Evaluation(before, riddle, catalog, id, userAnswer, pick);
      && (r.Failure? || !r.value.isCorrect ==> after == before)
      && (r.Success? && r.value.isCorrect <==>
            AnswerMatches(riddle.answer, userAnswer) && (id in before.completed || id in before.order))
      && (before.eligible ==> after.eligible)
  {
    AnswerFailsOnlyOffOrder(before, catalog, id);
  }

  /** Whatever the submission, the new record keeps both invariants. */
  lemma EvaluationKeepsInvariants(before: ProgressRow, riddle: Riddle, catalog: Catalog, id: int,
                                  userAnswer: string, pick: nat)
    requires id in catalog
    ensures var after := Evaluation(before, riddle, catalog, id, userAnswer, pick).1;
      && (Consistent(before, catalog) ==> Consistent(after, catalog))
      && (Shuffled(before, catalog) ==> Shuffled(after, catalog))
  {
    var after := Evaluation(before, riddle, catalog, id, userAnswer, pick).1;
    if AnswerMatches(riddle.answer, userAnswer) && AnswerCorrectly(before, catalog, id).Some? {
      assert after == AnswerCorrectly(before, catalog, id).value;
      AnswerPreservesInvariants(before, catalog, id);
    } else {
      assert after == before;
    }
  }

  /** Evaluates a submission that passed the checks, against the record. */
  method Evaluate(progress: UserProgress, riddle: Riddle, catalog: Catalog, id: int,
                  userAnswer: string, pick: nat)
    returns (r: Result<SubmitReply, Failure>)
    modifies progress
    ensures (r, progress.Snapshot()) == Evaluation(old(progress.Snapshot()), riddle, catalog, id, userAnswer, pick)
  {
    ghost var before := progress.Snapshot();
    if !AnswerMatches(riddle.answer, userAnswer) {
      return Success(SubmitReply(false, riddle.incorrectFeedback, false, false, None, None));
    }
    var applied, completedAll, nextEnigma := RecordCorrectAnswer(progress, catalog, id);
    if !applied {
      return Failure(NotInOrder);
    }
    ghost var after := progress.Snapshot();
    assert AnswerCorrectly(before, catalog, id) == Some(after);
    var count := |progress.completed|;
    r := Success(SubmitReply(true, riddle.correctFeedback, completedAll, nextEnigma,
                             Some(ProgressSummary(count, |catalog|, progress.points)),
                             MotivationalMessage(count, |catalog|, pick)));
    assert r.value == CorrectReply(before, after, riddle, catalog, id, pick);
  }

  /** `submit_answer`: the checks in the route's order, then the evaluation.
      `pick` stands for `random.choice`. Every failure and every incorrect
      answer leaves the record unchanged. */
  method SubmitAnswer(config: AppConfig?, now: int, hasSession: bool, progress: UserProgress?,
                      answer: Option<string>, enigmaId: Option<int>, catalog: Catalog, pick: nat)
    returns (r: Result<SubmitReply, Failure>)
    modifies progress
    ensures var f := Rejection(config, now, hasSession, progress != null, answer, enigmaId, catalog);
      f.Some? ==> r == Failure(f.value) && (progress == null || unchanged(progress))
    ensures Rejection(config, now, hasSession, progress != null, answer, enigmaId, catalog).None? ==>
      && progress != null
      && (r, progress.Snapshot()) == Evaluation(old(progress.Snapshot()), catalog[enigmaId.value], catalog,
                                                enigmaId.value, UserAnswer(answer), pick)
  {
    var rejection := Rejection(config, now, hasSession, progress != null, answer, enigmaId, catalog);
    if rejection.Some? {
      return Failure(rejection.value);
    }
    var id := enigmaId.value;
    r := Evaluate(progress, catalog[id], catalog, id, UserAnswer(answer), pick);
  }
}
