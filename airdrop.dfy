/** The airdrop manager's selection, pricing, export and status update.
    The configuration row is passed in: None when the table is empty. */
module Airdrop {
  import opened Wrappers
  import opened Models
  import opened Failures
  import WalletRoutes

  /** The selection query of `get_eligible_users`. */
  predicate Selected(config: AirdropConfig, row: ProgressRow) {
    row.wallet.Some? && row.points >= config.minimumPoints && row.airdropStatus == STATUS_PENDING
  }

  /** `get_eligible_users`: the selected records, in query order; nothing
      without a configuration. */
  function GetEligibleUsers(config: Option<AirdropConfig>, users: seq<UserProgress>): (selected: seq<UserProgress>)
    reads set u | u in users
    ensures config.None? ==> selected == []
    ensures forall u :: u in selected ==> u in users && config.Some? && Selected(config.value, u.Snapshot())
    ensures config.Some? ==> forall u :: u in users && Selected(config.value, u.Snapshot()) ==> u in selected
    ensures |selected| <= |users|
  {
    match config
    case None => []
    case Some(c) => SelectFrom(c, users)
  }

  function SelectFrom(config: AirdropConfig, users: seq<UserProgress>): (selected: seq<UserProgress>)
    reads set u | u in users
    ensures forall u :: u in selected ==> u in users && Selected(config, u.Snapshot())
    ensures forall u :: u in users && Selected(config, u.Snapshot()) ==> u in selected
    ensures |selected| <= |users|
  {
    if users == [] then []
    else
      var last := users[|users| - 1];
      var init := SelectFrom(config, users[..|users| - 1]);
      assert forall u :: u in users ==> u in users[..|users| - 1] || u == last;
      if Selected(config, last.Snapshot()) then init + [last] else init
  }

  /** The route export asks for eligibility; this selection does not. */
  lemma SelectionIgnoresEligibility(config: AirdropConfig, row: ProgressRow)
    ensures Selected(config, row) <==> Selected(config, row.(eligible := !row.eligible))
  {
  }

  /** `calculate_airdrop_amount`: the points at the configured rate, 0
      without a configuration. */
  function CalculateAirdropAmount(config: Option<AirdropConfig>, points: int): (amount: int)
    ensures config.None? ==> amount == 0
    ensures config.Some? ==> amount == points * config.value.tokensPerPoint
  {
    match config
    case None => 0
    case Some(c) => points * c.tokensPerPoint
  }

  /** The default rate of `create_airdrop_config`. */
  const DEFAULT_TOKENS_PER_POINT := 1000000

  /** The default minimum points of `create_airdrop_config`. */
  const DEFAULT_MINIMUM_POINTS := 50

  /** `create_airdrop_config`: the new configuration is active, with the
      default rate and minimum unless others are given. */
  function CreateAirdropConfig(tokenMint: string, adminWallet: string,
                               tokensPerPoint: int := DEFAULT_TOKENS_PER_POINT,
                               minimumPoints: int := DEFAULT_MINIMUM_POINTS): (c: AirdropConfig)
    ensures c.airdropActive
    ensures c.tokenMint == tokenMint && c.adminWallet == adminWallet
    ensures c.tokensPerPoint == tokensPerPoint && c.minimumPoints == minimumPoints
  {
    AirdropConfig(tokenMint, adminWallet, tokensPerPoint, minimumPoints, true)
  }

  /** A configuration created with the defaults prices points as the
      route export does, and selects every pending row the route export
      lists, at the amount the export gives it. */
  lemma DefaultConfigAgreesWithExport(tokenMint: string, adminWallet: string, row: ProgressRow)
    ensures var c := CreateAirdropConfig(tokenMint, adminWallet);
      && c.minimumPoints == WalletRoutes.ROUTE_MINIMUM_POINTS
      && CalculateAirdropAmount(Some(c), row.points) == row.points * WalletRoutes.ROUTE_TOKENS_PER_POINT
      && (WalletRoutes.Exported(row) && row.airdropStatus == STATUS_PENDING ==> Selected(c, row))
      && (WalletRoutes.Exported(row) ==>
            EntryFor(Some(c), row).amount == WalletRoutes.EntryOf(row).tokenAmount)
  {
  }

  // ---------------------------------------------------------------------
  // Export and simulation

  datatype AirdropEntry = AirdropEntry(wallet: Option<string>, points: int, amount: int, sessionId: string)

  function EntryFor(config: Option<AirdropConfig>, row: ProgressRow): AirdropEntry {
    AirdropEntry(row.wallet, row.points, CalculateAirdropAmount(config, row.points), row.sessionId)
  }

  /** One entry per row, in order. */
  function Entries(config: Option<AirdropConfig>, rows: seq<ProgressRow>): (entries: seq<AirdropEntry>)
    ensures |entries| == |rows|
    ensures forall i :: 0 <= i < |rows| ==> entries[i] == EntryFor(config, rows[i])
  {
    if rows == [] then []
    else Entries(config, rows[..|rows| - 1]) + [EntryFor(config, rows[|rows| - 1])]
  }

  function SumAmounts(entries: seq<AirdropEntry>): int {
    if entries == [] then 0
    else SumAmounts(entries[..|entries| - 1]) + entries[|entries| - 1].amount
  }

  function SumPointsOf(rows: seq<ProgressRow>): int {
    if rows == [] then 0 else SumPointsOf(rows[..|rows| - 1]) + rows[|rows| - 1].points
  }

  /** The summed amounts are the summed points at the configured rate. */
  lemma {:induction false} SumAmountsPriced(config: AirdropConfig, rows: seq<ProgressRow>)
    ensures SumAmounts(Entries(Some(config), rows)) == SumPointsOf(rows) * config.tokensPerPoint
    decreases |rows|
  {
    if rows != [] {
      var init := rows[..|rows| - 1];
      SumAmountsPriced(config, init);
      var es := Entries(Some(config), rows);
      assert es[..|es| - 1] == Entries(Some(config), init);
    }
  }

  /** `export_airdrop_data`: one entry per selected user, in order, with
      the user's computed amount. */
  method ExportAirdropData(config: Option<AirdropConfig>, users: seq<UserProgress>)
    returns (entries: seq<AirdropEntry>)
    ensures entries == Entries(config, Rows(GetEligibleUsers(config, users)))
    ensures config.None? ==> entries == []
  {
    var eligible := GetEligibleUsers(config, users);
    ghost var rows := Rows(eligible);
    entries := [];
    for i := 0 to |eligible|
      invariant entries == Entries(config, rows[..i])
    {
      var u := eligible[i];
      assert rows[..i + 1][..i] == rows[..i];
      entries := entries + [EntryFor(config, u.Snapshot())];
    }
    assert rows[..|eligible|] == rows;
  }

  datatype Recipient = Recipient(wallet: Option<string>, points: int, amount: int)

  datatype Simulation = Simulation(recipients: seq<Recipient>, totalRecipients: nat, totalTokens: int)

  function RecipientFor(config: Option<AirdropConfig>, row: ProgressRow): Recipient {
    Recipient(row.wallet, row.points, CalculateAirdropAmount(config, row.points))
  }

  /** One recipient per row, in order. */
  function Recipients(config: Option<AirdropConfig>, rows: seq<ProgressRow>): (rs: seq<Recipient>)
    ensures |rs| == |rows|
    ensures forall i :: 0 <= i < |rows| ==> rs[i] == RecipientFor(config, rows[i])
  {
    if rows == [] then []
    else Recipients(config, rows[..|rows| - 1]) + [RecipientFor(config, rows[|rows| - 1])]
  }

  /** `simulate_airdrop`, in integer base units: the recipients and the
      total amount; an error without a configuration. */
  method SimulateAirdrop(config: Option<AirdropConfig>, users: seq<UserProgress>)
    returns (r: Result<Simulation, Failure>)
    ensures config.None? <==> r == Failure(NoAirdropConfig)
    ensures r.Success? ==>
      var rows := Rows(GetEligibleUsers(config, users));
      && r.value.recipients == Recipients(config, rows)
      && r.value.totalRecipients == |rows|
      && r.value.totalTokens == SumAmounts(Entries(config, rows))
      && r.value.totalTokens == SumPointsOf(rows) * config.value.tokensPerPoint
  {
    var eligible := GetEligibleUsers(config, users);
    if config.None? {
      return Failure(NoAirdropConfig);
    }
    ghost var rows := Rows(eligible);
    var totalTokens := 0;
    var recipients := [];
    for i := 0 to |eligible|
      invariant recipients == Recipients(config, rows[..i])
      invariant totalTokens == SumAmounts(Entries(config, rows[..i]))
    {
      var u := eligible[i];
      assert rows[..i + 1][..i] == rows[..i];
      var amount := CalculateAirdropAmount(config, u.points);
      totalTokens := totalTokens + amount;
      recipients := recipients + [Recipient(u.wallet, u.points, amount)];
    }
    assert rows[..|eligible|] == rows;
    SumAmountsPriced(config.value, rows);
    r := Success(Simulation(recipients, |recipients|, totalTokens));
  }

  // ---------------------------------------------------------------------
  // Status update (airdrop_manager.py:161-175)

  /** The record after a status update at instant `now`: the status always,
      the hash and the amount only when given truthy values, the sent time
      only for status 'sent'. */
  function StatusUpdated(row: ProgressRow, status: string, txHash: Option<string>,
                         amount: Option<int>, now: int): (r: ProgressRow)
    ensures r.airdropStatus == status
    ensures r.txHash == (if txHash.Some? && txHash.value != "" then txHash else row.txHash)
    ensures r.airdropAmount == (if amount.Some? && amount.value != 0 then amount.value else row.airdropAmount)
    ensures r.sentAt == (if status == STATUS_SENT then Some(now) else row.sentAt)
    ensures r.(airdropStatus := row.airdropStatus, txHash := row.txHash,
               airdropAmount := row.airdropAmount, sentAt := row.sentAt) == row
  {
    var r1 := row.(airdropStatus := status);
    var r2 := if txHash.Some? && txHash.value != "" then r1.(txHash := txHash) else r1;
    var r3 := if amount.Some? && amount.value != 0 then r2.(airdropAmount := amount.value) else r2;
    if status == STATUS_SENT then r3.(sentAt := Some(now)) else r3
  }

  /** `update_airdrop_status`; `user` is the record the id resolves to, null
      for an unknown id, which changes nothing. */
  method UpdateAirdropStatus(user: UserProgress?, status: string, txHash: Option<string>,
                             amount: Option<int>, now: int)
    modifies user
    ensures user != null ==> user.Snapshot() == StatusUpdated(old(user.Snapshot()), status, txHash, amount, now)
  {
    if user != null {
      user.airdropStatus := status;
      if txHash.Some? && txHash.value != "" {
        user.txHash := txHash;
      }
      if amount.Some? && amount.value != 0 {
        user.airdropAmount := amount.value;
      }
      if status == STATUS_SENT {
        user.sentAt := Some(now);
      }
    }
  }

  /** A record marked sent leaves the selection until a disconnect resets
      its status. */
  lemma SentLeavesSelection(config: AirdropConfig, row: ProgressRow, txHash: Option<string>,
                            amount: Option<int>, now: int)
    ensures !Selected(config, StatusUpdated(row, STATUS_SENT, txHash, amount, now))
  {
  }
}
