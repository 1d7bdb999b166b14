/** One run of the script (`transfer_data`): authenticate with Google and
    with Caspio, read the sheet, post the eligible rows, mark the successful
    ones as copied and report. Every outside answer is an input: whether the
    Google authentication succeeded, the token exchange's reply, the sheet's
    values (`None` when reading raised) and the reply to the `i`-th post. */
module TransferRun {
  import opened Wrappers
  import opened Seqs
  import opened SheetReader
  import opened FieldMap
  import opened Sink
  import opened StatusWriter

  /** What a run did and reported: its boolean result, the token request it
      issued (`None` when it stopped before), what was read (`None` when the run stopped before
      reading), the posts, the successful transfers, the cell writes and the
      three counts of the final summary. */
  datatype RunReport = RunReport(
    ok: bool,
    tokenRequest: Option<TokenRequest>,
    read: Option<SheetRead>,
    posts: seq<Post>,
    transfers: seq<Transfer>,
    writes: seq<CellWrite>,
    processed: nat,
    succeeded: nat,
    failed: int)

  /** The replies to the first `n` posts. */
  function Replies(reply: nat -> PostOutcome, n: nat): (r: seq<PostOutcome>)
    ensures |r| == n
    ensures forall i | 0 <= i < n :: r[i] == reply(i)
  {
    seq(n, i requires 0 <= i => reply(i))
  }

  /** Both authentications succeeded and the reader found eligible rows:
      the run goes on to post them. */
  predicate Proceeds(googleAuthOk: bool, tokenReply: TokenReply, fetched: Option<seq<seq<string>>>) {
    googleAuthOk && AcquireToken(tokenReply).Some? && ReadSheet(fetched).rows != []
  }

  /** `transfer_data`. It stops with `False` when either authentication
      fails, and with `True` when no row is eligible; otherwise it posts every
      eligible row, writes the marker back for the successful ones (when
      there are any) and returns whether any succeeded. */
  function Run(googleAuthOk: bool, tokenReply: TokenReply, cfg: CaspioConfig, table: Table,
               fetched: Option<seq<seq<string>>>, reply: nat -> PostOutcome): (r: RunReport)
    ensures !googleAuthOk ==> !r.ok && r.tokenRequest.None? && r.read.None? && r.posts == [] && r.writes == []
    ensures googleAuthOk ==> r.tokenRequest == Some(TokenRequestFor(cfg))
    ensures googleAuthOk && AcquireToken(tokenReply).None? ==>
              !r.ok && r.read.None? && r.posts == [] && r.writes == []
    ensures googleAuthOk && AcquireToken(tokenReply).Some? && ReadSheet(fetched).rows == [] ==>
              r.ok && r.read == Some(ReadSheet(fetched)) && r.posts == [] && r.writes == []
    ensures Proceeds(googleAuthOk, tokenReply, fetched) ==>
              && r.read == Some(ReadSheet(fetched))
              && r.processed == |ReadSheet(fetched).rows|
              && r.succeeded == |r.transfers|
              && r.failed == r.processed - r.succeeded >= 0
              && (r.ok <==> r.succeeded > 0)
    ensures r.transfers == [] ==> r.writes == []
  {
    if !googleAuthOk then RunReport(false, None, None, [], [], [], 0, 0, 0)
    else
      var request := Some(TokenRequestFor(cfg));
      var token := AcquireToken(tokenReply);
      if token.None? then RunReport(false, request, None, [], [], [], 0, 0, 0)
      else
        var read := ReadSheet(fetched);
        if read.rows == [] then RunReport(true, request, Some(read), [], [], [], 0, 0, 0)
        else
          var sent := SendToSink(cfg, token, table, read.rows, Replies(reply, |read.rows|));
          var writes := if sent.transfers != [] then WritePlan(sent.transfers) else [];
          RunReport(|sent.transfers| > 0, request, Some(read), sent.posts, sent.transfers, writes,
                    |read.rows|, |sent.transfers|, |read.rows| - |sent.transfers|)
  }

  /** When the run proceeds, its posts, transfers and writes are those of
      the sender and the write plan on the rows read. */
  lemma RunParts(googleAuthOk: bool, tokenReply: TokenReply, cfg: CaspioConfig, table: Table,
                 fetched: Option<seq<seq<string>>>, reply: nat -> PostOutcome)
    requires Proceeds(googleAuthOk, tokenReply, fetched)
    ensures var rows := ReadSheet(fetched).rows;
      var sent := SendToSink(cfg, AcquireToken(tokenReply), table, rows, Replies(reply, |rows|));
      var r := Run(googleAuthOk, tokenReply, cfg, table, fetched, reply);
      && r.posts == sent.posts
      && r.transfers == sent.transfers
      && r.writes == WritePlan(sent.transfers)
  {
  }

  /** Every successful transfer of a run is that of an eligible row read
      from the sheet whose post was accepted, and carries status column 19. */
  lemma RunTransferred(googleAuthOk: bool, tokenReply: TokenReply, cfg: CaspioConfig, table: Table,
                       fetched: Option<seq<seq<string>>>, reply: nat -> PostOutcome, k: nat) returns (i: nat)
    requires k < |Run(googleAuthOk, tokenReply, cfg, table, fetched, reply).transfers|
    ensures Proceeds(googleAuthOk, tokenReply, fetched)
    ensures i < |ReadSheet(fetched).rows| && Accepted(reply(i))
    ensures Run(googleAuthOk, tokenReply, cfg, table, fetched, reply).transfers[k]
            == TransferFor(table, ReadSheet(fetched).rows[i])
    ensures Run(googleAuthOk, tokenReply, cfg, table, fetched, reply).transfers[k].statusCol == StatusColumn
  {
    var rows := ReadSheet(fetched).rows;
    RunParts(googleAuthOk, tokenReply, cfg, table, fetched, reply);
    var replies := Replies(reply, |rows|);
    i := SendTransferred(cfg, AcquireToken(tokenReply), table, rows, replies, k);
    ReadSheetRow(fetched.value, i);
  }

  /** The run's writes are one per successful transfer, in order, each
      setting column 20 of the transfer's sheet row to "Copied". */
  lemma RunWritesPerTransfer(googleAuthOk: bool, tokenReply: TokenReply, cfg: CaspioConfig, table: Table,
                             fetched: Option<seq<seq<string>>>, reply: nat -> PostOutcome)
    ensures var r := Run(googleAuthOk, tokenReply, cfg, table, fetched, reply);
      && |r.writes| == |r.transfers|
      && forall k | 0 <= k < |r.transfers| :: r.writes[k] == CellWrite(r.transfers[k].rowNumber, 20, "Copied")
  {
    var r := Run(googleAuthOk, tokenReply, cfg, table, fetched, reply);
    if r.transfers != [] {
      forall k | 0 <= k < |r.transfers|
        ensures r.transfers[k].statusCol == StatusColumn
      {
        var _ := RunTransferred(googleAuthOk, tokenReply, cfg, table, fetched, reply, k);
      }
      RunParts(googleAuthOk, tokenReply, cfg, table, fetched, reply);
      WritePlanAllPass(r.transfers);
    }
  }

  /** A run writes only into rows it transferred: the `k`-th write marks the
      sheet row of an eligible row whose post was accepted. */
  lemma RunWritesOnlyAccepted(googleAuthOk: bool, tokenReply: TokenReply, cfg: CaspioConfig, table: Table,
                              fetched: Option<seq<seq<string>>>, reply: nat -> PostOutcome, k: nat) returns (i: nat)
    requires k < |Run(googleAuthOk, tokenReply, cfg, table, fetched, reply).writes|
    ensures Proceeds(googleAuthOk, tokenReply, fetched)
    ensures i < |ReadSheet(fetched).rows| && Accepted(reply(i))
    ensures Run(googleAuthOk, tokenReply, cfg, table, fetched, reply).writes[k]
            == CellWrite(ReadSheet(fetched).rows[i].rowNumber, 20, "Copied")
  {
    RunWritesPerTransfer(googleAuthOk, tokenReply, cfg, table, fetched, reply);
    i := RunTransferred(googleAuthOk, tokenReply, cfg, table, fetched, reply, k);
  }

  /** A run misses no accepted row: when the token is usable, every eligible
      row whose post was accepted gets its status cell written. */
  lemma RunWritesEveryAccepted(googleAuthOk: bool, tokenReply: TokenReply, cfg: CaspioConfig, table: Table,
                               fetched: Option<seq<seq<string>>>, reply: nat -> PostOutcome, i: nat) returns (k: nat)
    requires Proceeds(googleAuthOk, tokenReply, fetched) && HasToken(AcquireToken(tokenReply))
    requires i < |ReadSheet(fetched).rows| && Accepted(reply(i))
    ensures k < |Run(googleAuthOk, tokenReply, cfg, table, fetched, reply).writes|
    ensures Run(googleAuthOk, tokenReply, cfg, table, fetched, reply).writes[k]
            == CellWrite(ReadSheet(fetched).rows[i].rowNumber, 20, "Copied")
  {
    var rows := ReadSheet(fetched).rows;
    var replies := Replies(reply, |rows|);
    RunParts(googleAuthOk, tokenReply, cfg, table, fetched, reply);
    k := SendMissesNothing(cfg, AcquireToken(tokenReply), table, rows, replies, i);
    RunWritesPerTransfer(googleAuthOk, tokenReply, cfg, table, fetched, reply);
  }

  /** With the token usable, the run posts every eligible row whatever the
      replies, so it fails only when no post was accepted. */
  lemma RunOkIffSomeAccepted(googleAuthOk: bool, tokenReply: TokenReply, cfg: CaspioConfig, table: Table,
                             fetched: Option<seq<seq<string>>>, reply: nat -> PostOutcome)
    requires Proceeds(googleAuthOk, tokenReply, fetched) && HasToken(AcquireToken(tokenReply))
    ensures Run(googleAuthOk, tokenReply, cfg, table, fetched, reply).ok
            <==> exists i | 0 <= i < |ReadSheet(fetched).rows| :: Accepted(reply(i))
  {
    var rows := ReadSheet(fetched).rows;
    var r := Run(googleAuthOk, tokenReply, cfg, table, fetched, reply);
    if i :| 0 <= i < |rows| && Accepted(reply(i)) {
      var _ := RunWritesEveryAccepted(googleAuthOk, tokenReply, cfg, table, fetched, reply, i);
    }
    if r.ok {
      var _ := RunTransferred(googleAuthOk, tokenReply, cfg, table, fetched, reply, 0);
    }
  }

  /** An empty access token passes the token exchange but posts nothing, so
      a run with eligible rows then reports failure and writes nothing. */
  lemma RunEmptyToken(googleAuthOk: bool, cfg: CaspioConfig, table: Table,
                      fetched: Option<seq<seq<string>>>, reply: nat -> PostOutcome)
    requires googleAuthOk && ReadSheet(fetched).rows != []
    ensures var r := Run(googleAuthOk, TokenAnswered(200, Some("")), cfg, table, fetched, reply);
      !r.ok && r.posts == [] && r.writes == [] && r.failed == r.processed == |ReadSheet(fetched).rows|
  {
  }

  /** The next run sees the marks: after the writes of a run are applied to
      the sheet it read, a data row is selected again exactly when it was
      selected before and was not transferred. */
  lemma RerunSkipsCopiedRows(googleAuthOk: bool, tokenReply: TokenReply, cfg: CaspioConfig, table: Table,
                             sheet: seq<seq<string>>, reply: nat -> PostOutcome, n: int)
    requires sheet != [] && FirstDataRow <= n <= |sheet|
    ensures var r := Run(googleAuthOk, tokenReply, cfg, table, Some(sheet), reply);
      var after := ApplyWrites(sheet, r.writes);
      after != [] &&
      (n in RowNumbers(ReadSheet(Some(after)).rows)
       <==> n in RowNumbers(ReadSheet(Some(sheet)).rows) && !WritesRow(r.writes, n))
  {
    var r := Run(googleAuthOk, tokenReply, cfg, table, Some(sheet), reply);
    var after := ApplyWrites(sheet, r.writes);
    forall k | 0 <= k < |r.writes|
      ensures r.writes[k].col == StatusColumn + 1 && r.writes[k].value == Marker
      ensures FirstDataRow <= r.writes[k].row <= |sheet|
    {
      var i := RunWritesOnlyAccepted(googleAuthOk, tokenReply, cfg, table, Some(sheet), reply, k);
      ReadSheetRow(sheet, i);
    }
    ApplyWritesEligibility(sheet, r.writes, n);
    ReadSheetSelectsExactly(sheet, n);
    ReadSheetSelectsExactly(after, n);
  }
}
