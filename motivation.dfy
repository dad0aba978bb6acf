/** `get_motivational_message`: the milestone shown after a correct answer. */
module Motivation {
  import opened Wrappers

  datatype Kind = ProgressKind | FinalKind

  datatype Message = Message(kind: Kind, message: string, title: string)

  const PROGRESS_TITLE: string := "INTELLIGENCE ASSESSMENT"
  const FINAL_TITLE: string := "MISSION COMPLETE - RECRUITMENT CONFIRMED"

  const PROGRESS_MESSAGES: seq<string> := [
    "Excellent work, agent. Your intelligence is above average.",
    "You're proving to be one of the best. HQ is keeping an eye on you.",
    "Sharp answers, just as we expect from a true secret agent.",
    "Keep it up. Few have come this far.",
    "Outstanding performance. The conspiracy deepens with each answer.",
    "Your analytical skills are impressive. Agent 404 would be proud.",
    "Exceptional deduction abilities detected. Continue the investigation.",
    "Top-tier intelligence confirmed. You're getting closer to the truth."
  ]

  const FINAL_MESSAGES: seq<string> := [
    "Mission accomplished. You've been selected to join our Secret HQ. Welcome to the elite.",
    "Congratulations, agent. You are now recruited into our Secret HQ. Prepare for upcoming missions.",
    "Outstanding! You have proven worthy of the highest clearance. Welcome to Agent 404's inner circle.",
    "Recruitment complete. Your skills have earned you a place among the conspiracy's greatest minds."
  ]

  function Pool(kind: Kind): seq<string> {
    match kind
    case ProgressKind => PROGRESS_MESSAGES
    case FinalKind => FINAL_MESSAGES
  }

  function Title(kind: Kind): string {
    match kind
    case ProgressKind => PROGRESS_TITLE
    case FinalKind => FINAL_TITLE
  }

  /** Which milestone, if any, `completedCount` out of `totalEnigmas`
      reaches: every second answer short of the end, then the end itself. */
  function Classify(completedCount: int, totalEnigmas: int): (kind: Option<Kind>)
    ensures kind == Some(ProgressKind) <==>
      completedCount > 0 && completedCount % 2 == 0 && completedCount < totalEnigmas
    ensures kind == Some(FinalKind) <==> completedCount >= totalEnigmas > 0
    ensures kind == None <==>
      !(completedCount > 0 && completedCount % 2 == 0 && completedCount < totalEnigmas)
      && !(completedCount >= totalEnigmas > 0)
  {
    if completedCount > 0 && completedCount % 2 == 0 && completedCount < totalEnigmas then
      Some(ProgressKind)
    else if completedCount >= totalEnigmas && totalEnigmas > 0 then
      Some(FinalKind)
    else
      None
  }

  /** The message; `pick` stands for `random.choice` and selects a member
      of the kind's pool. */
  function MotivationalMessage(completedCount: int, totalEnigmas: int, pick: nat): (m: Option<Message>)
    ensures m.Some? <==> Classify(completedCount, totalEnigmas).Some?
    ensures m.Some? ==>
      && m.value.kind == Classify(completedCount, totalEnigmas).value
      && m.value.message in Pool(m.value.kind)
      && m.value.title == Title(m.value.kind)
  {
    match Classify(completedCount, totalEnigmas)
    case None => None
    case Some(kind) =>
      var pool := Pool(kind);
      Some(Message(kind, pool[pick % |pool|], Title(kind)))
  }

  /** How many of the counts 1..n reach a milestone of `kind`. */
  function CountKind(n: nat, totalEnigmas: int, kind: Kind): nat {
    if n == 0 then 0
    else CountKind(n - 1, totalEnigmas, kind) + (if Classify(n, totalEnigmas) == Some(kind) then 1 else 0)
  }

  lemma {:induction false} CountBelowTotal(n: nat, totalEnigmas: int)
    requires n < totalEnigmas
    ensures CountKind(n, totalEnigmas, ProgressKind) == n / 2
    ensures CountKind(n, totalEnigmas, FinalKind) == 0
  {
    if n > 0 {
      CountBelowTotal(n - 1, totalEnigmas);
    }
  }

  /** Over one game of `total` first-time answers, with counts 1..total,
      the final message is shown once, at the last answer, and a progress
      message at every even count before it. */
  lemma MilestonesOverGame(total: nat)
    requires total > 0
    ensures CountKind(total, total, FinalKind) == 1
    ensures CountKind(total, total, ProgressKind) == (total - 1) / 2
  {
    CountBelowTotal(total - 1, total);
  }
}
