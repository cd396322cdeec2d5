/** The registration side of backend/applications/applications.go: the record the
    registration handler stores, and the two generators of application ids and API
    keys, which share one retry loop over the token encoder and the store's
    existence check. */
module Applications {
  import opened Wrappers
  import opened Tokens
  import opened Service

  /** The application record the registration handler decodes from its request. */
  datatype Application = Application(
    appName: string,
    appId: string,
    description: string,
    owners: string,
    teamName: string,
    apiKey: string,
    isValid: bool)

  /** The fixed key the registration handler writes in place of a generated one. */
  const StaticApiKey: string := "testStaticApiKey"

  /** The two assignments the registration handler makes to the decoded record:
      the application is valid and carries the static key; every other field is
      what the request held. */
  function PrepareNewApp(decoded: Application): (app: Application)
    ensures app.isValid && app.apiKey == StaticApiKey
    ensures app.(isValid := decoded.isValid, apiKey := decoded.apiKey) == decoded
  {
    decoded.(isValid := true, apiKey := StaticApiKey)
  }

  /** The key the handler stores is not one `apiKeyGenerate` could return: the
      handler does not use the generator. */
  lemma StaticKeyIsNotGenerated(decoded: Application, d: Draw)
    ensures PrepareNewApp(decoded).apiKey != Token(ApiKeyPrefix, d)
  {
    TokenLength(d);
  }

  /** What one call of the random source gives: a filled 32-byte buffer, or an error. */
  datatype ReadResult = Filled(bytes: Draw) | ReadFailed(err: Error)

  /** What the environment supplies to one pass of the loop: the random bytes, and the
      error (if any) the store raises on that pass's existence check. */
  datatype Round = Round(read: ReadResult, storeFault: Option<Error>)

  /** How a generator run over a finite supply of rounds ends: it returned (a token
      with no error, or `""` with an error), or it used every supplied round and
      would go on drawing. */
  datatype Outcome = Returned(token: string, err: Option<Error>) | StillDrawing

  /** The loop shared by both generators, as a function of the table, the prefix,
      the column checked and the rounds supplied. The loop leaves as soon as the
      existence check answers `stopWhenFound`: the code as written stops on `true`
      ("a row holds this value"); stopping on `false` is what its comments intend. */
  function Generation(rows: seq<Row>, prefix: string, column: Column, rounds: seq<Round>, stopWhenFound: bool): (r: Outcome)
    ensures r.Returned? && r.err.Some? ==> r.token == ""
    ensures r.Returned? && r.err.None? ==> Present(rows, column, r.token) == stopWhenFound
    decreases |rounds|
  {
    if rounds == [] then StillDrawing
    else match rounds[0].read
      case ReadFailed(e) => Returned("", Some(e))
      case Filled(bytes) =>
        if rounds[0].storeFault.Some? then Returned("", rounds[0].storeFault)
        else if Present(rows, column, Token(prefix, bytes)) == stopWhenFound then Returned(Token(prefix, bytes), None)
        else Generation(rows, prefix, column, rounds[1..], stopWhenFound)
  }

  /** The generator loop as the code has it: `isUnique` holds the answer of
      `CheckDuplicate`, and the loop runs `for !isUnique`. */
  method Generate(db: ApplicationTable, prefix: string, column: Column, rounds: seq<Round>) returns (outcome: Outcome)
    ensures outcome == Generation(db.rows, prefix, column, rounds, true)
  {
    var isUnique := false;
    var candidate := "";
    var i := 0;
    while !isUnique
      invariant 0 <= i <= |rounds|
      invariant !isUnique ==> Generation(db.rows, prefix, column, rounds, true) == Generation(db.rows, prefix, column, rounds[i..], true)
      invariant isUnique ==> Generation(db.rows, prefix, column, rounds, true) == Returned(candidate, None)
      decreases |rounds| - i
    {
      if i == |rounds| {
        return StillDrawing;
      }
      var round := rounds[i];
      assert rounds[i..][1..] == rounds[i + 1..];
      match round.read {
        case ReadFailed(e) =>
          return Returned("", Some(e));
        case Filled(bytes) =>
          candidate := Token(prefix, bytes);
          var err;
          isUnique, err := db.CheckDuplicate(column, candidate, round.storeFault);
          if err.Some? {
            return Returned("", err);
          }
      }
      i := i + 1;
    }
    return Returned(candidate, None);
  }

  /** `apiKeyGenerate`: the shared loop with the key prefix, checked against `api_key`. */
  method ApiKeyGenerate(db: ApplicationTable, rounds: seq<Round>) returns (outcome: Outcome)
    ensures outcome == Generation(db.rows, ApiKeyPrefix, ApiKey, rounds, true)
  {
    outcome := Generate(db, ApiKeyPrefix, ApiKey, rounds);
  }

  /** `appIDGenerate`: the shared loop with the application prefix, checked against `id`. */
  method AppIdGenerate(db: ApplicationTable, rounds: seq<Round>) returns (outcome: Outcome)
    ensures outcome == Generation(db.rows, AppIdPrefix, Id, rounds, true)
  {
    outcome := Generate(db, AppIdPrefix, Id, rounds);
  }

  /** The loop as its comments describe it: draw again while the candidate is
      already in the table. */
  method GenerateUnique(db: ApplicationTable, prefix: string, column: Column, rounds: seq<Round>) returns (outcome: Outcome)
    ensures outcome == Generation(db.rows, prefix, column, rounds, false)
  {
    var isDuplicate := true;
    var candidate := "";
    var i := 0;
    while isDuplicate
      invariant 0 <= i <= |rounds|
      invariant isDuplicate ==> Generation(db.rows, prefix, column, rounds, false) == Generation(db.rows, prefix, column, rounds[i..], false)
      invariant !isDuplicate ==> Generation(db.rows, prefix, column, rounds, false) == Returned(candidate, None)
      decreases |rounds| - i
    {
      if i == |rounds| {
        return StillDrawing;
      }
      var round := rounds[i];
      assert rounds[i..][1..] == rounds[i + 1..];
      match round.read {
        case ReadFailed(e) =>
          return Returned("", Some(e));
        case Filled(bytes) =>
          candidate := Token(prefix, bytes);
          var err;
          isDuplicate, err := db.CheckDuplicate(column, candidate, round.storeFault);
          if err.Some? {
            return Returned("", err);
          }
      }
      i := i + 1;
    }
    return Returned(candidate, None);
  }

  /** How a run ends, round by round: every round before round `k` drew bytes, met no
      store error and got the answer that keeps the loop going; round `k` either
      failed (and the run returns `""` with that error) or got the answer that stops
      it (and the run returns that round's candidate). */
  lemma {:induction false} ReturnedAtRound(rows: seq<Row>, prefix: string, column: Column, rounds: seq<Round>, stopWhenFound: bool)
    returns (k: nat)
    requires Generation(rows, prefix, column, rounds, stopWhenFound).Returned?
    ensures k < |rounds|
    ensures forall j | 0 <= j < k ::
      && rounds[j].read.Filled?
      && rounds[j].storeFault.None?
      && Present(rows, column, Token(prefix, rounds[j].read.bytes)) != stopWhenFound
    ensures Generation(rows, prefix, column, rounds, stopWhenFound) ==
      match rounds[k].read
      case ReadFailed(e) => Returned("", Some(e))
      case Filled(bytes) =>
        if rounds[k].storeFault.Some? then Returned("", rounds[k].storeFault)
        else Returned(Token(prefix, bytes), None)
    ensures rounds[k].read.Filled? && rounds[k].storeFault.None? ==>
      Present(rows, column, Token(prefix, rounds[k].read.bytes)) == stopWhenFound
    decreases |rounds|
  {
    var r := rounds[0];
    if r.read.ReadFailed? || r.storeFault.Some? || Present(rows, column, Token(prefix, r.read.bytes)) == stopWhenFound {
      k := 0;
    } else {
      var k' := ReturnedAtRound(rows, prefix, column, rounds[1..], stopWhenFound);
      k := k' + 1;
    }
  }

  /** The converse of `ReturnedAtRound`: when every round before round `k` drew bytes,
      met no store error and got the answer that keeps the loop going, and round `k`
      fails or gets the stopping answer, the run returns, and returns what round `k`
      gives. */
  lemma {:induction false} StopsAtFirst(rows: seq<Row>, prefix: string, column: Column, rounds: seq<Round>, stopWhenFound: bool, k: nat)
    requires k < |rounds|
    requires forall j | 0 <= j < k ::
      && rounds[j].read.Filled?
      && rounds[j].storeFault.None?
      && Present(rows, column, Token(prefix, rounds[j].read.bytes)) != stopWhenFound
    requires || rounds[k].read.ReadFailed?
             || rounds[k].storeFault.Some?
             || Present(rows, column, Token(prefix, rounds[k].read.bytes)) == stopWhenFound
    ensures Generation(rows, prefix, column, rounds, stopWhenFound) ==
      match rounds[k].read
      case ReadFailed(e) => Returned("", Some(e))
      case Filled(bytes) =>
        if rounds[k].storeFault.Some? then Returned("", rounds[k].storeFault)
        else Returned(Token(prefix, bytes), None)
    decreases k
  {
    if k > 0 {
      var rest := rounds[1..];
      assert rest[k - 1] == rounds[k];
      assert forall j | 0 <= j < k - 1 :: rest[j] == rounds[j + 1];
      StopsAtFirst(rows, prefix, column, rest, stopWhenFound, k - 1);
    }
  }

  /** A run uses up its supply without returning exactly when every supplied round
      drew bytes, met no store error and got the answer that keeps the loop going. */
  lemma {:induction false} StillDrawingExactly(rows: seq<Row>, prefix: string, column: Column, rounds: seq<Round>, stopWhenFound: bool)
    ensures Generation(rows, prefix, column, rounds, stopWhenFound) == StillDrawing <==>
      forall j | 0 <= j < |rounds| ::
        && rounds[j].read.Filled?
        && rounds[j].storeFault.None?
        && Present(rows, column, Token(prefix, rounds[j].read.bytes)) != stopWhenFound
    decreases |rounds|
  {
    if rounds != [] {
      var rest := rounds[1..];
      assert forall j | 0 <= j < |rest| :: rest[j] == rounds[j + 1];
      StillDrawingExactly(rows, prefix, column, rest, stopWhenFound);
      var r := rounds[0];
      if r.read.Filled? && r.storeFault.None? && Present(rows, column, Token(prefix, r.read.bytes)) != stopWhenFound {
        if forall j | 0 <= j < |rest| ::
          && rest[j].read.Filled?
          && rest[j].storeFault.None?
          && Present(rows, column, Token(prefix, rest[j].read.bytes)) != stopWhenFound
        {
          forall j | 0 <= j < |rounds|
            ensures rounds[j].read.Filled? && rounds[j].storeFault.None?
              && Present(rows, column, Token(prefix, rounds[j].read.bytes)) != stopWhenFound
          {
            if j > 0 { assert rounds[j] == rest[j - 1]; }
          }
        }
      }
    }
  }

  /** Once a run has returned, rounds supplied after it change nothing: no further
      bytes are drawn and no further check is made. */
  lemma {:induction false} LaterRoundsIgnored(rows: seq<Row>, prefix: string, column: Column, rounds: seq<Round>, more: seq<Round>, stopWhenFound: bool)
    requires Generation(rows, prefix, column, rounds, stopWhenFound).Returned?
    ensures Generation(rows, prefix, column, rounds + more, stopWhenFound) == Generation(rows, prefix, column, rounds, stopWhenFound)
    decreases |rounds|
  {
    var all := rounds + more;
    var r := rounds[0];
    assert all[0] == r;
    if r.read.Filled? && r.storeFault.None? && Present(rows, column, Token(prefix, r.read.bytes)) != stopWhenFound {
      assert all[1..] == rounds[1..] + more;
      assert Generation(rows, prefix, column, all, stopWhenFound) == Generation(rows, prefix, column, rounds[1..] + more, stopWhenFound);
      LaterRoundsIgnored(rows, prefix, column, rounds[1..], more, stopWhenFound);
    }
  }

  /** A token returned without error is a well-formed token (the prefix, 43 letters
      or digits, one `=`), and the existence check gave `stopWhenFound` for it. */
  lemma ReturnedToken(rows: seq<Row>, prefix: string, column: Column, rounds: seq<Round>, stopWhenFound: bool, t: string)
    requires Generation(rows, prefix, column, rounds, stopWhenFound) == Returned(t, None)
    ensures Present(rows, column, t) == stopWhenFound
    ensures |t| == |prefix| + 44 && t[..|prefix|] == prefix
    ensures forall i | |prefix| <= i < |t| :: t[i] != '+' && t[i] != '/'
    ensures forall i | |prefix| <= i < |t| - 1 :: IsAlphanumeric(t[i])
    ensures t[|t| - 1] == '='
  {
    var k := ReturnedAtRound(rows, prefix, column, rounds, stopWhenFound);
    TokenShape(prefix, rounds[k].read.bytes);
  }

  /** As written, a generator only ever returns a token that some row already holds
      in the checked column. */
  lemma GeneratedTokenIsTaken(rows: seq<Row>, prefix: string, column: Column, rounds: seq<Round>, t: string)
    requires Generation(rows, prefix, column, rounds, true) == Returned(t, None)
    ensures exists i | 0 <= i < |rows| :: rows[i].Cell(column) == t
  {
    ReturnedToken(rows, prefix, column, rounds, true, t);
  }

  /** As written, when no row holds a value with the generator's prefix (an empty
      table, say), no run returns a token: each run either fails or keeps drawing. */
  lemma {:induction false} NoTokenWithoutMatch(rows: seq<Row>, prefix: string, column: Column, rounds: seq<Round>)
    requires forall i | 0 <= i < |rows| :: !(prefix <= rows[i].Cell(column))
    ensures Generation(rows, prefix, column, rounds, true).Returned? ==>
      Generation(rows, prefix, column, rounds, true).err.Some?
    decreases |rounds|
  {
    if rounds != [] && rounds[0].read.Filled? && rounds[0].storeFault.None? {
      var t := Token(prefix, rounds[0].read.bytes);
      TokenShape(prefix, rounds[0].read.bytes);
      assert prefix <= t;
      NoTokenWithoutMatch(rows, prefix, column, rounds[1..]);
    }
  }

  /** Corrected, a generator only ever returns a token that no row holds in the
      checked column. */
  lemma UniqueTokenIsFree(rows: seq<Row>, prefix: string, column: Column, rounds: seq<Round>, t: string)
    requires Generation(rows, prefix, column, rounds, false) == Returned(t, None)
    ensures forall i | 0 <= i < |rows| :: rows[i].Cell(column) != t
  {
    ReturnedToken(rows, prefix, column, rounds, false, t);
  }
}
