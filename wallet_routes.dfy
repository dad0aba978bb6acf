/** The wallet routes and the route export of airdrop wallets. Every
    connect variant finds the session's record or creates one at the first
    riddle by position, with an order that starts there. */
module WalletRoutes {
  import opened Wrappers
  import opened Strings
  import opened Models
  import opened Failures
  import opened Progression

  /** Substrings that mark a demo address, compared upper-cased. */
  const DENY_KEYWORDS: seq<string> := ["DEMO", "TEST", "SPY", "LOL"]

  /** Tokens per point in the route export and the format-checked connect. */
  const ROUTE_TOKENS_PER_POINT := 1000000

  /** The export's minimum points. */
  const ROUTE_MINIMUM_POINTS := 50

  /** Python truthiness of an optional text field. */
  predicate Truthy(s: Option<string>) {
    s.Some? && s.value != ""
  }

  predicate HasDenyKeyword(address: string) {
    exists i | 0 <= i < |DENY_KEYWORDS| :: Contains(Upper(address), DENY_KEYWORDS[i])
  }

  /** `is_valid_solana_address`. Base58 decoding is not modelled:
      `decodesTo32Bytes` is its verdict on the address. */
  function IsValidSolanaAddress(address: Option<string>, decodesTo32Bytes: bool): (ok: bool)
    ensures ok ==> Truthy(address) && 32 <= |address.value| <= 44
    ensures ok ==> !HasDenyKeyword(address.value) && decodesTo32Bytes
    ensures (Truthy(address) && 32 <= |address.value| <= 44 && !HasDenyKeyword(address.value)
             && decodesTo32Bytes) ==> ok
  {
    if !Truthy(address) || |address.value| < 32 || |address.value| > 44 then false
    else if HasDenyKeyword(address.value) then false
    else decodesTo32Bytes
  }

  /** The demo address the GET connect and the form connect generate from
      the clock: 'SPY', the last six digits of the Unix time, 'LOL'. */
  function DemoWallet(unixTime: nat): string {
    "SPY" + LastChars(Decimal(unixTime), 6) + "LOL"
  }

  /** Every address that starts with 'SPY', whatever follows, carries a
      deny keyword. */
  lemma SpyPrefixDenied(w: string)
    requires |w| >= 3 && w[..3] == "SPY"
    ensures HasDenyKeyword(w)
  {
    assert Upper(w)[..3] == "SPY";
    assert OccursAt(Upper(w), DENY_KEYWORDS[2], 0);
  }

  /** A generated demo address is never a valid address. */
  lemma DemoWalletInvalid(unixTime: nat, decodesTo32Bytes: bool)
    ensures HasDenyKeyword(DemoWallet(unixTime))
    ensures !IsValidSolanaAddress(Some(DemoWallet(unixTime)), decodesTo32Bytes)
  {
    var w := DemoWallet(unixTime);
    assert w[..3] == "SPY";
    SpyPrefixDenied(w);
  }

  /** The format check of `connect_wallet`: after removing '...', '-' and
      '_' the address must be non-empty and alphanumeric. */
  predicate WellFormedWallet(w: string) {
    IsAlnum(RemoveAll(RemoveAll(RemoveAll(w, "..."), "-"), "_"))
  }

  /** An accepted address holds only letters, digits, '.', '-' and '_'. */
  lemma WellFormedChars(w: string)
    requires WellFormedWallet(w)
    ensures forall c :: c in w ==> IsAlnumChar(c) || c in "._-"
  {
    var r1 := RemoveAll(w, "...");
    var r2 := RemoveAll(r1, "-");
    var r3 := RemoveAll(r2, "_");
    forall c | c in w && c !in "._-"
      ensures IsAlnumChar(c)
    {
      RemoveAllKeepsOthers(w, "...", c);
      RemoveAllKeepsOthers(r1, "-", c);
      RemoveAllKeepsOthers(r2, "_", c);
      var i :| 0 <= i < |r3| && r3[i] == c;
    }
  }

  /** A non-empty alphanumeric address passes the format check. */
  lemma AlnumWellFormed(w: string)
    requires IsAlnum(w)
    ensures WellFormedWallet(w)
  {
    assert '.' !in w && '-' !in w && '_' !in w;
    RemoveAllAbsent(w, "...");
    RemoveAllAbsent(w, "-");
    RemoveAllAbsent(w, "_");
  }

  // ---------------------------------------------------------------------
  // Record updates, on values

  /** The validated connect: sets the wallet and makes the record eligible. */
  function WithRealWallet(row: ProgressRow, wallet: string): (r: ProgressRow)
    ensures r.wallet == Some(wallet) && r.eligible
    ensures r.completed == row.completed && r.points == row.points && r.order == row.order
    ensures r.(wallet := row.wallet, eligible := row.eligible) == row
  {
    row.(wallet := Some(wallet), eligible := true)
  }

  /** The unchecked connects: set the wallet only. */
  function WithWallet(row: ProgressRow, wallet: string): (r: ProgressRow)
    ensures r.wallet == Some(wallet) && r.eligible == row.eligible
    ensures r.completed == row.completed && r.points == row.points && r.order == row.order
    ensures r.(wallet := row.wallet) == row
  {
    row.(wallet := Some(wallet))
  }

  /** The format-checked connect: sets the wallet and prices the points. */
  function WithCheckedWallet(row: ProgressRow, wallet: string): (r: ProgressRow)
    ensures r.wallet == Some(wallet) && r.eligible == row.eligible
    ensures r.airdropAmount == row.points * ROUTE_TOKENS_PER_POINT
    ensures r.completed == row.completed && r.points == row.points && r.order == row.order
    ensures r.(wallet := row.wallet, airdropAmount := row.airdropAmount) == row
  {
    row.(wallet := Some(wallet), airdropAmount := row.points * ROUTE_TOKENS_PER_POINT)
  }

  /** Disconnect: clears the wallet and resets the airdrop status, keeping
      progress and eligibility. */
  function Disconnected(row: ProgressRow): (r: ProgressRow)
    ensures r.wallet == None && r.airdropStatus == STATUS_PENDING
    ensures r.txHash == None && r.sentAt == None
    ensures r.eligible == row.eligible && r.airdropAmount == row.airdropAmount
    ensures r.completed == row.completed && r.points == row.points && r.order == row.order
    ensures r.(wallet := row.wallet, airdropStatus := row.airdropStatus,
               txHash := row.txHash, sentAt := row.sentAt) == row
  {
    row.(wallet := None, airdropStatus := STATUS_PENDING, txHash := None, sentAt := None)
  }

  /** The wallet updates touch neither progress invariant. */
  lemma WalletUpdatesKeepProgress(row: ProgressRow, catalog: Catalog, wallet: string)
    ensures Consistent(row, catalog) ==> Consistent(WithRealWallet(row, wallet), catalog)
    ensures Shuffled(row, catalog) ==> Shuffled(WithRealWallet(row, wallet), catalog)
    ensures Consistent(row, catalog) ==> Consistent(WithWallet(row, wallet), catalog)
    ensures Shuffled(row, catalog) ==> Shuffled(WithWallet(row, wallet), catalog)
    ensures Consistent(row, catalog) ==> Consistent(WithCheckedWallet(row, wallet), catalog)
    ensures Shuffled(row, catalog) ==> Shuffled(WithCheckedWallet(row, wallet), catalog)
    ensures Consistent(row, catalog) ==> Consistent(Disconnected(row), catalog)
    ensures Shuffled(row, catalog) ==> Shuffled(Disconnected(row), catalog)
  {
  }

  // ---------------------------------------------------------------------
  // Claim (routes.py:560-582), on the record's value

  /** The claim guards; `record` is the session's record, if any. */
  function ClaimTokens(hasSession: bool, record: Option<ProgressRow>): (r: Result<bool, Failure>)
    ensures r.Success? <==> hasSession && record.Some? && Truthy(record.value.wallet) && record.value.eligible
    ensures r.Success? ==> r.value
    ensures !hasSession ==> r == Failure(SessionExpired)
    ensures hasSession && record.None? ==> r == Failure(ProgressNotFound)
    ensures hasSession && record.Some? && !Truthy(record.value.wallet) ==> r == Failure(NoWalletConnected)
    ensures hasSession && record.Some? && Truthy(record.value.wallet) && !record.value.eligible ==>
      r == Failure(NotEligible)
  {
    if !hasSession then Failure(SessionExpired)
    else if record.None? then Failure(ProgressNotFound)
    else if !Truthy(record.value.wallet) then Failure(NoWalletConnected)
    else if !record.value.eligible then Failure(NotEligible)
    else Success(true)
  }

  /** A validated connect alone unlocks the claim, whatever the progress;
      a disconnect locks it again. */
  lemma ClaimAfterWalletChanges(row: ProgressRow, wallet: string)
    requires wallet != ""
    ensures ClaimTokens(true, Some(WithRealWallet(row, wallet))) == Success(true)
    ensures ClaimTokens(true, Some(Disconnected(row))) == Failure(NoWalletConnected)
  {
  }

  // ---------------------------------------------------------------------
  // The routes that change a record

  /** The record lookup of the connect routes as the code writes it: a
      missing record is created at the first riddle by position with every
      other column at its default, the order included, which stays empty. */
  method GetOrCreateAsWritten(progress: UserProgress?, newId: int, sessionId: string, catalog: Catalog)
    returns (record: UserProgress?)
    ensures progress != null ==> record == progress
    ensures progress == null && catalog == map[] ==> record == null
    ensures progress == null && catalog != map[] ==>
      && record != null && fresh(record)
      && record.Snapshot() == DefaultRow(newId, sessionId, record.current)
      && record.current in catalog
      && forall k :: k in catalog ==> catalog[record.current].orderPosition <= catalog[k].orderPosition
  {
    record := progress;
    if record == null {
      var first := FirstByPosition(catalog);
      if first.Some? {
        record := new UserProgress(newId, sessionId, first.value);
      }
    }
  }

  /** A record created with the empty default order can never be played:
      its pointer is not in its order, so the game page fails with
      NotInOrder, and no first correct answer can be recorded. */
  lemma DefaultRowStalls(id: int, sessionId: string, current: int, catalog: Catalog, answered: int)
    ensures current !in DefaultRow(id, sessionId, current).order
    ensures answered !in DefaultRow(id, sessionId, current).completed ==>
      AnswerCorrectly(DefaultRow(id, sessionId, current), catalog, answered).None?
    ensures !Shuffled(DefaultRow(id, sessionId, current), catalog)
  {
  }

  /** Find the session's record or create one at the first riddle by
      position, with an order that starts there and lists every riddle, as
      the game page's records have; null when there is no record and no
      riddle. */
  method GetOrCreate(progress: UserProgress?, newId: int, sessionId: string, catalog: Catalog)
    returns (record: UserProgress?)
    ensures progress != null ==> record == progress
    ensures progress == null && catalog == map[] ==> record == null
    ensures progress == null && catalog != map[] ==>
      && record != null && fresh(record) && record.order != []
      && record.Snapshot() == StartRow(newId, sessionId, record.order)
      && Consistent(record.Snapshot(), catalog) && Shuffled(record.Snapshot(), catalog)
      && forall k :: k in catalog ==> catalog[record.current].orderPosition <= catalog[k].orderPosition
  {
    record := progress;
    if record == null {
      var first := FirstByPosition(catalog);
      if first.Some? {
        var order := OrderFrom(first.value, catalog.Keys);
        record := new UserProgress(newId, sessionId, first.value);
        record.order := order;
        StartRowInvariants(catalog, newId, sessionId, order);
      }
    }
  }

  /** `connect_wallet_real` (routes.py:260-298): a validated wallet makes the
      record eligible; a rejected one changes nothing. A missing record
      with an empty catalog makes the attribute assignment raise. */
  method ConnectWalletReal(sessionId: string, wallet: Option<string>, decodesTo32Bytes: bool,
                           progress: UserProgress?, newId: int, catalog: Catalog)
    returns (r: Result<string, Failure>, record: UserProgress?)
    modifies progress
    ensures !Truthy(wallet) ==> r == Failure(NoWalletProvided)
    ensures Truthy(wallet) && !IsValidSolanaAddress(wallet, decodesTo32Bytes) ==> r == Failure(InvalidWallet)
    ensures r.Failure? ==> progress == null || unchanged(progress)
    ensures IsValidSolanaAddress(wallet, decodesTo32Bytes) && progress != null ==>
      && r == Success(wallet.value) && record == progress
      && progress.Snapshot() == WithRealWallet(old(progress.Snapshot()), wallet.value)
    ensures IsValidSolanaAddress(wallet, decodesTo32Bytes) && progress == null ==>
      if catalog == map[] then r == Failure(NoRecord)
      else r == Success(wallet.value) && record != null && fresh(record)
           && record.order != [] && record.Snapshot() == WithRealWallet(StartRow(newId, sessionId, record.order), wallet.value)
           && Consistent(record.Snapshot(), catalog) && Shuffled(record.Snapshot(), catalog)
  {
    record := progress;
    if !Truthy(wallet) {
      return Failure(NoWalletProvided), record;
    }
    if !IsValidSolanaAddress(wallet, decodesTo32Bytes) {
      return Failure(InvalidWallet), record;
    }
    record := GetOrCreate(progress, newId, sessionId, catalog);
    if record == null {
      return Failure(NoRecord), record;
    }
    record.wallet := Some(wallet.value);
    record.eligible := true;
    r := Success(wallet.value);
  }

  /** `connect_wallet_simple` by GET (routes.py:398-427): stores a generated
      demo address. */
  method ConnectWalletSimple(sessionId: string, unixTime: nat, progress: UserProgress?,
                             newId: int, catalog: Catalog)
    returns (r: Result<string, Failure>, record: UserProgress?)
    modifies progress
    ensures progress != null ==>
      && r == Success(DemoWallet(unixTime)) && record == progress
      && progress.Snapshot() == WithWallet(old(progress.Snapshot()), DemoWallet(unixTime))
    ensures progress == null ==>
      if catalog == map[] then r == Failure(NoRecord)
      else r == Success(DemoWallet(unixTime)) && record != null && fresh(record)
           && record.order != [] && record.Snapshot() == WithWallet(StartRow(newId, sessionId, record.order), DemoWallet(unixTime))
           && Consistent(record.Snapshot(), catalog) && Shuffled(record.Snapshot(), catalog)
  {
    record := GetOrCreate(progress, newId, sessionId, catalog);
    if record == null {
      return Failure(NoRecord), record;
    }
    var wallet := DemoWallet(unixTime);
    record.wallet := Some(wallet);
    r := Success(wallet);
  }

  /** `connect_wallet_simple` by POST (routes.py:430-459): stores the given
      address unchecked. It reports success even when no record exists or
      can be created. */
  method ConnectWalletSimplePost(sessionId: string, wallet: Option<string>, progress: UserProgress?,
                                 newId: int, catalog: Catalog)
    returns (r: Result<bool, Failure>, record: UserProgress?)
    modifies progress
    ensures !Truthy(wallet) ==> r == Failure(NoWalletProvided) && (progress == null || unchanged(progress))
    ensures Truthy(wallet) ==> r == Success(true)
    ensures Truthy(wallet) && progress != null ==>
      record == progress && progress.Snapshot() == WithWallet(old(progress.Snapshot()), wallet.value)
    ensures Truthy(wallet) && progress == null ==>
      if catalog == map[] then record == null
      else record != null && fresh(record)
           && record.order != [] && record.Snapshot() == WithWallet(StartRow(newId, sessionId, record.order), wallet.value)
           && Consistent(record.Snapshot(), catalog) && Shuffled(record.Snapshot(), catalog)
  {
    record := progress;
    if !Truthy(wallet) {
      return Failure(NoWalletProvided), record;
    }
    record := GetOrCreate(progress, newId, sessionId, catalog);
    if record != null {
      record.wallet := Some(wallet.value);
    }
    r := Success(true);
  }

  /** `connect_wallet_form` (routes.py:461-481): stores a generated demo
      address on an existing record only. The route answers with redirects:
      the two failures stand for the redirects taken without a session and
      without a record. */
  method ConnectWalletForm(hasSession: bool, unixTime: nat, progress: UserProgress?)
    returns (r: Result<string, Failure>)
    modifies progress
    ensures !hasSession ==> r == Failure(SessionExpired)
    ensures hasSession && progress == null ==> r == Failure(ProgressNotFound)
    ensures r.Failure? ==> progress == null || unchanged(progress)
    ensures hasSession && progress != null ==>
      && r == Success(DemoWallet(unixTime))
      && progress.Snapshot() == WithWallet(old(progress.Snapshot()), DemoWallet(unixTime))
  {
    if !hasSession {
      return Failure(SessionExpired);
    }
    if progress == null {
      return Failure(ProgressNotFound);
    }
    var wallet := DemoWallet(unixTime);
    progress.wallet := Some(wallet);
    r := Success(wallet);
  }

  /** `connect_wallet` (routes.py:483-526): a format-checked address is
      stored and the record's points are priced into `airdrop_amount`.
      Without a request body the read of the wallet type raises. */
  method ConnectWallet(hasSession: bool, sessionId: string, hasBody: bool, wallet: Option<string>,
                       progress: UserProgress?, newId: int, catalog: Catalog)
    returns (r: Result<string, Failure>, record: UserProgress?)
    modifies progress
    ensures !hasSession ==> r == Failure(SessionExpired)
    ensures hasSession && !hasBody ==> r == Failure(NoRequestBody)
    ensures hasSession && hasBody && !Truthy(wallet) ==> r == Failure(NoWalletProvided)
    ensures hasSession && hasBody && Truthy(wallet) && !WellFormedWallet(wallet.value) ==>
      r == Failure(InvalidWalletFormat)
    ensures r.Failure? ==> progress == null || unchanged(progress)
    ensures hasSession && hasBody && Truthy(wallet) && WellFormedWallet(wallet.value) && progress != null ==>
      && r == Success(wallet.value) && record == progress
      && progress.Snapshot() == WithCheckedWallet(old(progress.Snapshot()), wallet.value)
    ensures hasSession && hasBody && Truthy(wallet) && WellFormedWallet(wallet.value) && progress == null ==>
      if catalog == map[] then r == Failure(NoRecord)
      else r == Success(wallet.value) && record != null && fresh(record)
           && record.order != [] && record.Snapshot() == WithCheckedWallet(StartRow(newId, sessionId, record.order), wallet.value)
           && Consistent(record.Snapshot(), catalog) && Shuffled(record.Snapshot(), catalog)
  {
    record := progress;
    if !hasSession {
      return Failure(SessionExpired), record;
    }
    if !hasBody {
      return Failure(NoRequestBody), record;
    }
    if !Truthy(wallet) {
      return Failure(NoWalletProvided), record;
    }
    if !WellFormedWallet(wallet.value) {
      return Failure(InvalidWalletFormat), record;
    }
    record := GetOrCreate(progress, newId, sessionId, catalog);
    if record == null {
      return Failure(NoRecord), record;
    }
    record.wallet := Some(wallet.value);
    record.airdropAmount := record.points * ROUTE_TOKENS_PER_POINT;
    r := Success(wallet.value);
  }

  /** `disconnect_wallet` (routes.py:529-557), for GET and POST alike. The
      failures are the POST replies 'No session found' and 'User progress
      not found'; by GET both are a redirect, with the same effect. */
  method DisconnectWallet(hasSession: bool, progress: UserProgress?)
    returns (r: Result<bool, Failure>)
    modifies progress
    ensures !hasSession ==> r == Failure(NoSessionFound)
    ensures hasSession && progress == null ==> r == Failure(ProgressNotFound)
    ensures r.Failure? ==> progress == null || unchanged(progress)
    ensures hasSession && progress != null ==>
      r == Success(true) && progress.Snapshot() == Disconnected(old(progress.Snapshot()))
  {
    if !hasSession {
      return Failure(NoSessionFound);
    }
    if progress == null {
      return Failure(ProgressNotFound);
    }
    progress.wallet := None;
    progress.airdropStatus := STATUS_PENDING;
    progress.txHash := None;
    progress.sentAt := None;
    r := Success(true);
  }

  // ---------------------------------------------------------------------
  // The route export (routes.py:301-331)

  datatype ExportEntry = ExportEntry(wallet: string, points: int, tokenAmount: int, completedCount: nat)

  /** The query filter and the double check of the loop together. */
  predicate Exported(row: ProgressRow) {
    row.wallet.Some? && row.eligible && row.points >= ROUTE_MINIMUM_POINTS
    && Truthy(row.wallet) && !HasDenyKeyword(row.wallet.value)
  }

  function EntryOf(row: ProgressRow): ExportEntry
    requires row.wallet.Some?
  {
    ExportEntry(row.wallet.value, row.points, row.points * ROUTE_TOKENS_PER_POINT, |row.completed|)
  }

  /** The entries for the exported rows, in input order. */
  function ExportEntries(rows: seq<ProgressRow>): seq<ExportEntry> {
    if rows == [] then []
    else
      var last := rows[|rows| - 1];
      ExportEntries(rows[..|rows| - 1]) + (if Exported(last) then [EntryOf(last)] else [])
  }

  function TotalTokens(entries: seq<ExportEntry>): int {
    if entries == [] then 0
    else TotalTokens(entries[..|entries| - 1]) + entries[|entries| - 1].tokenAmount
  }

  /** The points of the exported rows. */
  function ExportedPoints(rows: seq<ProgressRow>): int {
    if rows == [] then 0
    else
      var last := rows[|rows| - 1];
      ExportedPoints(rows[..|rows| - 1]) + (if Exported(last) then last.points else 0)
  }

  /** Exactly the exported rows have entries, and each entry is its row's. */
  lemma {:induction false} ExportEntriesMembers(rows: seq<ProgressRow>)
    ensures forall e :: e in ExportEntries(rows) ==>
      exists row :: row in rows && Exported(row) && e == EntryOf(row)
    ensures forall row :: row in rows && Exported(row) ==> EntryOf(row) in ExportEntries(rows)
    decreases |rows|
  {
    if rows != [] {
      var init := rows[..|rows| - 1];
      ExportEntriesMembers(init);
      assert rows == init + [rows[|rows| - 1]];
      forall e | e in ExportEntries(rows)
        ensures exists row :: row in rows && Exported(row) && e == EntryOf(row)
      {
        if e in ExportEntries(init) {
          var row :| row in init && Exported(row) && e == EntryOf(row);
          assert row in rows;
        }
      }
    }
  }

  /** The export keeps input order: it distributes over concatenation. */
  lemma {:induction false} ExportEntriesConcat(a: seq<ProgressRow>, b: seq<ProgressRow>)
    ensures ExportEntries(a + b) == ExportEntries(a) + ExportEntries(b)
    decreases |b|
  {
    if b == [] {
      assert a + b == a;
    } else {
      var b' := b[..|b| - 1];
      assert (a + b)[..|a + b| - 1] == a + b';
      ExportEntriesConcat(a, b');
    }
  }

  /** The total is the exported points priced at the route's rate. */
  lemma {:induction false} TotalIsPricedPoints(rows: seq<ProgressRow>)
    ensures TotalTokens(ExportEntries(rows)) == ExportedPoints(rows) * ROUTE_TOKENS_PER_POINT
    decreases |rows|
  {
    if rows != [] {
      var init := rows[..|rows| - 1];
      var last := rows[|rows| - 1];
      TotalIsPricedPoints(init);
      var extra := if Exported(last) then [EntryOf(last)] else [];
      TotalTokensConcat(ExportEntries(init), extra);
    }
  }

  lemma {:induction false} TotalTokensConcat(a: seq<ExportEntry>, b: seq<ExportEntry>)
    ensures TotalTokens(a + b) == TotalTokens(a) + TotalTokens(b)
    decreases |b|
  {
    if b == [] {
      assert a + b == a;
    } else {
      var b' := b[..|b| - 1];
      assert (a + b)[..|a + b| - 1] == a + b';
      TotalTokensConcat(a, b');
    }
  }

  /** A record holding a generated demo address is never exported. */
  lemma DemoWalletNeverExported(row: ProgressRow, unixTime: nat)
    requires row.wallet == Some(DemoWallet(unixTime))
    ensures ExportEntries([row]) == []
  {
    DemoWalletInvalid(unixTime, true);
    assert [row][..0] == [];
  }

  /** `export_airdrop_wallets`: the entries and their token total. */
  method ExportAirdropWallets(users: seq<UserProgress>)
    returns (entries: seq<ExportEntry>, total: int)
    ensures entries == ExportEntries(Rows(users))
    ensures total == TotalTokens(entries)
    ensures total == ExportedPoints(Rows(users)) * ROUTE_TOKENS_PER_POINT
  {
    entries, total := [], 0;
    ghost var rows := Rows(users);
    for i := 0 to |users|
      invariant entries == ExportEntries(rows[..i])
      invariant total == TotalTokens(entries)
    {
      var row := users[i].Snapshot();
      assert rows[..i + 1][..i] == rows[..i];
      assert rows[..i + 1][i] == row;
      if Exported(row) {
        var entry := EntryOf(row);
        assert (entries + [entry])[..|entries|] == entries;
        entries := entries + [entry];
        total := total + entry.tokenAmount;
      }
    }
    assert rows[..|users|] == rows;
    TotalIsPricedPoints(rows);
  }
}
