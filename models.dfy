/**
 * The persistent records of models.py: riddles (`Enigma`), the per-session
 * `UserProgress` record, the singleton `AirdropConfig` and the singleton
 * `AppConfig` with its access gate. Column defaults are the constructors'
 * postconditions; timestamps other than `airdrop_sent_at` are left out.
 */
module Models {
  import opened Wrappers
  import Answers

  /** `Enigma`; its `id` is the key under which a Catalog holds it. */
  datatype Riddle = Riddle(
    title: string,
    description: string,
    imageUrl: Option<string>,
    answer: Answers.AnswerField,
    difficulty: int,
    points: int,
    hint: Option<string>,
    correctFeedback: string,
    incorrectFeedback: string,
    orderPosition: int)

  /** The `enigma` table: riddle id to riddle. */
  type Catalog = map<int, Riddle>

  const STATUS_PENDING := "pending"
  const STATUS_SENT := "sent"

  /** The value of every column of a `UserProgress` row at one moment. */
  datatype ProgressRow = ProgressRow(
    id: int,
    sessionId: string,
    wallet: Option<string>,
    current: int,
    completed: seq<int>,
    order: seq<int>,
    points: int,
    eligible: bool,
    airdropStatus: string,
    airdropAmount: int,
    txHash: Option<string>,
    sentAt: Option<int>)

  /** A row with every column at its default (models.py:29-39). */
  function DefaultRow(id: int, sessionId: string, current: int): ProgressRow {
    ProgressRow(id, sessionId, None, current, [], [], 0, false, STATUS_PENDING, 0, None, None)
  }

  /** `UserProgress`: one record per session id, updated in place by the
      routes and by the airdrop manager. The two JSON text columns are
      held as the integer sequences they encode. */
  class UserProgress {
    var id: int
    var sessionId: string
    var wallet: Option<string>
    var current: int
    var completed: seq<int>
    var order: seq<int>
    var points: int
    var eligible: bool
    var airdropStatus: string
    var airdropAmount: int
    var txHash: Option<string>
    var sentAt: Option<int>

    /** The record's columns as a value. */
    function Snapshot(): ProgressRow
      reads this
    {
      ProgressRow(id, sessionId, wallet, current, completed, order, points, eligible,
                  airdropStatus, airdropAmount, txHash, sentAt)
    }

    /** A new record with every column at its default: completed and order
        `'[]'`, 0 points, not eligible, status 'pending', amount 0. */
    constructor (id: int, sessionId: string, current: int)
      ensures Snapshot() == DefaultRow(id, sessionId, current)
      ensures wallet == None && completed == [] && order == []
      ensures points == 0 && !eligible
      ensures airdropStatus == STATUS_PENDING && airdropAmount == 0
    {
      this.id := id;
      this.sessionId := sessionId;
      this.current := current;
      wallet := None;
      completed := [];
      order := [];
      points := 0;
      eligible := false;
      airdropStatus := STATUS_PENDING;
      airdropAmount := 0;
      txHash := None;
      sentAt := None;
    }
  }

  /** The rows of a list of records, as a query returns them. */
  function Rows(users: seq<UserProgress>): (rows: seq<ProgressRow>)
    reads set u | u in users
    ensures |rows| == |users|
    ensures forall i :: 0 <= i < |users| ==> rows[i] == users[i].Snapshot()
  {
    if users == [] then []
    else Rows(users[..|users| - 1]) + [users[|users| - 1].Snapshot()]
  }

  /** `AirdropConfig` (models.py:45-56). */
  datatype AirdropConfig = AirdropConfig(
    tokenMint: string,
    adminWallet: string,
    tokensPerPoint: int,
    minimumPoints: int,
    airdropActive: bool)

  const DEFAULT_MAINTENANCE_MESSAGE := "App is temporarily unavailable for maintenance"

  /** `AppConfig`: the access gate, a singleton updated in place by the
      admin routes. Instants are integers on one clock. */
  class AppConfig {
    var appActive: bool
    var accessStart: Option<int>
    var accessEnd: Option<int>
    var maintenanceMessage: string

    /** The defaults: active, no window; so open at every instant. */
    constructor ()
      ensures appActive && accessStart == None && accessEnd == None
      ensures maintenanceMessage == DEFAULT_MAINTENANCE_MESSAGE
      ensures forall now: int :: IsAccessible(now)
    {
      appActive := true;
      accessStart := None;
      accessEnd := None;
      maintenanceMessage := DEFAULT_MAINTENANCE_MESSAGE;
    }

    /** `is_accessible`: closed when inactive; otherwise open exactly inside
        the configured window, both bounds included, a missing bound being
        no restriction. */
    function IsAccessible(now: int): (open: bool)
      reads this
      ensures !appActive ==> !open
      ensures appActive && accessStart.None? && accessEnd.None? ==> open
      ensures accessStart.Some? && now < accessStart.value ==> !open
      ensures accessEnd.Some? && now > accessEnd.value ==> !open
      ensures open <==> appActive
                        && (accessStart.Some? ==> accessStart.value <= now)
                        && (accessEnd.Some? ==> now <= accessEnd.value)
    {
      if !appActive then false
      else if accessStart.None? && accessEnd.None? then true
      else if accessStart.Some? && now < accessStart.value then false
      else if accessEnd.Some? && now > accessEnd.value then false
      else true
    }
  }
}
