/** The Caspio side of a run (`get_caspio_token` and `send_to_caspio`). The
    network is replaced by its answers: the token exchange's reply and one
    reply per posted record are inputs, and the requests the script would
    issue are outputs. */
module Sink {
  import opened Wrappers
  import opened Seqs
  import opened SheetReader
  import opened FieldMap
  import opened Endpoints

  /** The connection settings (`caspio_config`). */
  datatype CaspioConfig = CaspioConfig(accountId: string, clientId: string, clientSecret: string, tableName: string)

  /** The client-credentials request of the token exchange. */
  datatype TokenRequest = TokenRequest(url: string, clientId: string, clientSecret: string)

  /** What the token exchange came back with: the request raised, or an
      HTTP status with the `access_token` of the JSON body (`None` when the
      body is not JSON or has no such field, which raises in the script). */
  datatype TokenReply = TokenRaised | TokenAnswered(status: int, accessToken: Option<string>)

  /** The body of a reply to a posted record: absent, JSON, or something
      that does not decode as JSON. */
  datatype ReplyBody = NoBody | JsonBody | NotJson

  /** What posting one record came back with: the request raised, or an
      HTTP status and a body. */
  datatype PostOutcome = Raised | Replied(status: int, body: ReplyBody)

  /** One record posted to the records endpoint with a bearer token. */
  datatype Post = Post(url: string, bearer: string, record: Record)

  /** A successful transfer: the sheet row, the record sent and the status
      column carried over from the reader. */
  datatype Transfer = Transfer(rowNumber: int, record: Record, statusCol: int)

  /** The requests issued and the successful transfers. */
  datatype SendReport = SendReport(posts: seq<Post>, transfers: seq<Transfer>)

  /** The token request for a configuration: the client credentials posted
      to the OAuth endpoint of the configured account. */
  function TokenRequestFor(cfg: CaspioConfig): TokenRequest {
    TokenRequest(TokenUrl(cfg.accountId), cfg.clientId, cfg.clientSecret)
  }

  /** The token a reply leaves behind: only a 200 whose body carries an
      access token yields one; every other status, a raised request or an
      unreadable body means authentication failed. */
  function AcquireToken(reply: TokenReply): (r: Option<string>)
    ensures r.Some? ==> reply.TokenAnswered? && reply.status == 200 && r == reply.accessToken
    ensures reply.TokenAnswered? && reply.status == 200 && reply.accessToken.Some? ==> r == reply.accessToken
  {
    match reply
    case TokenAnswered(200, Some(t)) => Some(t)
    case _ => None
  }

  /** `if not self.caspio_token`: no token, or the empty string, stops the
      transfer before anything is posted. */
  predicate HasToken(token: Option<string>)
    ensures token.None? || token == Some("") ==> !HasToken(token)
    ensures token.Some? && token.value != "" ==> HasToken(token)
  {
    token.Some? && token.value != ""
  }

  /** A post counts as a success on status 200 or 201, unless its body is
      present but is not JSON: decoding it raises and the row is skipped. */
  predicate Accepted(o: PostOutcome)
    ensures o.Raised? ==> !Accepted(o)
    ensures o.Replied? && o.status != 200 && o.status != 201 ==> !Accepted(o)
    ensures o.Replied? && o.body == NotJson ==> !Accepted(o)
    ensures o.Replied? && (o.status == 200 || o.status == 201) && (o.body == NoBody || o.body == JsonBody) ==> Accepted(o)
  {
    o.Replied? && (o.status == 200 || o.status == 201) && o.body != NotJson
  }

  /** The request for one selected row. */
  function PostFor(cfg: CaspioConfig, bearer: string, table: Table, row: RowRecord): Post {
    Post(RecordsUrl(cfg.accountId, cfg.tableName), bearer, BuildRecord(table, row.cells))
  }

  /** The transfer recorded for one selected row. */
  function TransferFor(table: Table, row: RowRecord): Transfer {
    Transfer(row.rowNumber, BuildRecord(table, row.cells), row.statusCol)
  }

  /** One request per row, in row order. */
  function PostsFor(cfg: CaspioConfig, bearer: string, table: Table, rows: seq<RowRecord>): (r: seq<Post>)
    ensures |r| == |rows|
    ensures forall i | 0 <= i < |rows| ::
              && r[i].url == RecordsUrl(cfg.accountId, cfg.tableName)
              && r[i].bearer == bearer
              && r[i].record == BuildRecord(table, rows[i].cells)
  {
    seq(|rows|, i requires 0 <= i < |rows| => PostFor(cfg, bearer, table, rows[i]))
  }

  /** The loop's successful transfers: row `i` is recorded when its reply is
      accepted; a failed or raising post only skips its own row. */
  function Accepts(table: Table, rows: seq<RowRecord>, replies: seq<PostOutcome>): (r: seq<Transfer>)
    requires |replies| == |rows|
    ensures |r| <= |rows|
    ensures (forall i | 0 <= i < |rows| :: Accepted(replies[i])) ==>
              |r| == |rows| && forall i | 0 <= i < |rows| :: r[i] == TransferFor(table, rows[i])
    ensures (forall i | 0 <= i < |rows| :: !Accepted(replies[i])) ==> r == []
  {
    if rows == [] then []
    else
      var n := |rows| - 1;
      var front := Accepts(table, rows[..n], replies[..n]);
      AcceptsStep(table, rows, replies, front);
      if Accepted(replies[n]) then front + [TransferFor(table, rows[n])] else front
  }

  /** The step of Accepts: what the transfers of all but the last row are
      when every reply, or no reply, before the last was accepted. */
  lemma AcceptsStep(table: Table, rows: seq<RowRecord>, replies: seq<PostOutcome>, front: seq<Transfer>)
    requires |replies| == |rows| && rows != []
    requires var n := |rows| - 1;
      (forall i | 0 <= i < n :: Accepted(replies[..n][i])) ==>
        |front| == n && forall i | 0 <= i < n :: front[i] == TransferFor(table, rows[..n][i])
    requires var n := |rows| - 1;
      (forall i | 0 <= i < n :: !Accepted(replies[..n][i])) ==> front == []
    ensures (forall i | 0 <= i < |rows| :: Accepted(replies[i])) ==>
              |front| == |rows| - 1 && forall i | 0 <= i < |rows| - 1 :: front[i] == TransferFor(table, rows[i])
    ensures (forall i | 0 <= i < |rows| :: !Accepted(replies[i])) ==> front == []
  {
    var n := |rows| - 1;
    assert forall i | 0 <= i < n :: replies[..n][i] == replies[i] && rows[..n][i] == rows[i];
  }

  /** `send_to_caspio`: without a token nothing is posted and nothing
      succeeds; with one, every row is posted, in order, to the records
      endpoint with the token as bearer and the row's mapped record as body,
      whatever the replies to earlier rows were. */
  function SendToSink(cfg: CaspioConfig, token: Option<string>, table: Table,
                      rows: seq<RowRecord>, replies: seq<PostOutcome>): (r: SendReport)
    requires |replies| == |rows|
    ensures !HasToken(token) ==> r.posts == [] && r.transfers == []
    ensures HasToken(token) ==>
              && |r.posts| == |rows|
              && |r.transfers| <= |rows|
              && forall i | 0 <= i < |rows| ::
                   && r.posts[i].url == RecordsUrl(cfg.accountId, cfg.tableName)
                   && r.posts[i].bearer == token.value
                   && r.posts[i].record == BuildRecord(table, rows[i].cells)
  {
    if !HasToken(token) then SendReport([], [])
    else SendReport(PostsFor(cfg, token.value, table, rows), Accepts(table, rows, replies))
  }

  /** The transfers are as many as the accepted replies. */
  lemma {:induction false} AcceptsLength(table: Table, rows: seq<RowRecord>, replies: seq<PostOutcome>)
    requires |replies| == |rows|
    ensures |Accepts(table, rows, replies)| == |Positions(replies, Accepted)|
  {
    if rows != [] {
      var n := |rows| - 1;
      AcceptsLength(table, rows[..n], replies[..n]);
      PositionsSnoc(replies, Accepted);
    }
  }

  /** The `k`-th transfer is the transfer of the row at the `k`-th accepted
      reply. */
  lemma {:induction false} AcceptsAt(table: Table, rows: seq<RowRecord>, replies: seq<PostOutcome>, k: nat)
    requires |replies| == |rows| && k < |Accepts(table, rows, replies)|
    ensures k < |Positions(replies, Accepted)|
    ensures Accepts(table, rows, replies)[k] == TransferFor(table, rows[Positions(replies, Accepted)[k]])
  {
    var n := |rows| - 1;
    var front := Accepts(table, rows[..n], replies[..n]);
    var all := Accepts(table, rows, replies);
    var pos := Positions(replies, Accepted);
    assert k < |pos| by {
      AcceptsLength(table, rows, replies);
    }
    assert all == if Accepted(replies[n]) then front + [TransferFor(table, rows[n])] else front;
    if k < |front| {
      assert all[k] == TransferFor(table, rows[pos[k]]) by {
        AcceptsAt(table, rows[..n], replies[..n], k);
        PositionsSnoc(replies, Accepted);
        var i := Positions(replies[..n], Accepted)[k];
        assert pos[k] == i;
        TakeIndex(rows, n, i);
        assert all[k] == front[k];
      }
    } else {
      assert all[k] == TransferFor(table, rows[pos[k]]) by {
        AcceptsLength(table, rows[..n], replies[..n]);
        AcceptsLength(table, rows, replies);
        PositionsSnoc(replies, Accepted);
        assert k == |front| == |Positions(replies[..n], Accepted)|;
        assert all[k] == TransferFor(table, rows[n]);
        assert pos[k] == n;
      }
    }
  }

  /** Every transfer reports a row whose reply was accepted, with that row's
      number, mapped record and status column. */
  lemma SendTransferred(cfg: CaspioConfig, token: Option<string>, table: Table,
                        rows: seq<RowRecord>, replies: seq<PostOutcome>, k: nat) returns (i: nat)
    requires |replies| == |rows| && k < |SendToSink(cfg, token, table, rows, replies).transfers|
    ensures HasToken(token) && i < |rows| && Accepted(replies[i])
    ensures SendToSink(cfg, token, table, rows, replies).transfers[k] == TransferFor(table, rows[i])
  {
    AcceptsAt(table, rows, replies, k);
    i := Positions(replies, Accepted)[k];
  }

  /** With a token, no accepted row is missed: its transfer is listed, at the
      returned place. */
  lemma SendMissesNothing(cfg: CaspioConfig, token: Option<string>, table: Table,
                          rows: seq<RowRecord>, replies: seq<PostOutcome>, i: nat) returns (k: nat)
    requires |replies| == |rows| && HasToken(token) && i < |rows| && Accepted(replies[i])
    ensures k < |SendToSink(cfg, token, table, rows, replies).transfers|
    ensures SendToSink(cfg, token, table, rows, replies).transfers[k] == TransferFor(table, rows[i])
  {
    k := PositionOf(replies, Accepted, i);
    AcceptsLength(table, rows, replies);
    AcceptsAt(table, rows, replies, k);
  }

  /** The transfers keep the order of the rows: when the row numbers
      increase, so do those of the transfers. */
  lemma SendKeepsOrder(cfg: CaspioConfig, token: Option<string>, table: Table,
                       rows: seq<RowRecord>, replies: seq<PostOutcome>)
    requires |replies| == |rows| && StrictlyIncreasing(RowNumbers(rows))
    ensures var ts := SendToSink(cfg, token, table, rows, replies).transfers;
      forall a, b | 0 <= a < b < |ts| :: ts[a].rowNumber < ts[b].rowNumber
  {
    var ts := SendToSink(cfg, token, table, rows, replies).transfers;
    var pos := Positions(replies, Accepted);
    PositionsIncreasing(replies, Accepted);
    forall a, b | 0 <= a < b < |ts|
      ensures ts[a].rowNumber < ts[b].rowNumber
    {
      AcceptsAt(table, rows, replies, a);
      AcceptsAt(table, rows, replies, b);
      assert RowNumbers(rows)[pos[a]] < RowNumbers(rows)[pos[b]];
    }
  }
}
