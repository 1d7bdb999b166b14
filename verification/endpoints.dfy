/** Account-id normalisation and the two REST endpoints built from it
    (`get_caspio_token` and `send_to_caspio`): the configured account id may
    be given with a scheme and with the `.caspio.com` host suffix; both are
    removed before the host is rebuilt. */
module Endpoints {
  import opened Text

  const HttpsScheme: string := "https://"
  const HttpScheme: string := "http://"
  const HostSuffix: string := ".caspio.com"

  /** Every `https://` removed, then every `http://`: whole schemes only,
      and an id without a colon, which holds neither, is kept. */
  function StripSchemes(accountId: string): (r: string)
    ensures |r| <= |accountId|
    ensures ':' !in accountId ==> r == accountId
  {
    if ':' !in accountId then
      assert ':' in HttpsScheme && ':' in HttpScheme;
      RemoveAllAbsent(accountId, HttpsScheme, ':');
      RemoveAllAbsent(accountId, HttpScheme, ':');
      RemoveAll(RemoveAll(accountId, HttpsScheme), HttpScheme)
    else RemoveAll(RemoveAll(accountId, HttpsScheme), HttpScheme)
  }

  /** Every `.caspio.com` removed, but only when the id ends with it: whole
      occurrences only, and an id without a dot cannot end with it. */
  function DropHostSuffix(x: string): (r: string)
    ensures |r| <= |x|
    ensures |x| == |r| + (if EndsWith(x, HostSuffix) then RemovedCount(x, HostSuffix) else 0) * |HostSuffix|
    ensures !EndsWith(x, HostSuffix) ==> r == x
    ensures '.' !in x ==> r == x
  {
    if '.' !in x && |HostSuffix| <= |x| then
      var w := x[|x| - |HostSuffix|..];
      assert w[0] == x[|x| - |HostSuffix|];
      assert w[0] != HostSuffix[0];
      x
    else if EndsWith(x, HostSuffix) then
      RemoveAllLength(x, HostSuffix);
      RemoveAll(x, HostSuffix)
    else x
  }

  /** A bare account id: no dot and no colon, so it holds neither a scheme
      nor the host suffix. */
  predicate PlainId(x: string) {
    '.' !in x && ':' !in x
  }

  /** The account id as both endpoints use it: the schemes are removed,
      then, if what is left ends with `.caspio.com`, every occurrence of
      `.caspio.com` is removed, not only the trailing one. A bare id is
      its own normal form. */
  function NormalizeAccountId(accountId: string): (r: string)
    ensures |r| <= |accountId|
    ensures PlainId(accountId) ==> r == accountId
  {
    DropHostSuffix(StripSchemes(accountId))
  }

  /** The host every request goes to: reading the id back out of it, between
      the scheme and the suffix, gives the normalised id. */
  function Host(accountId: string): (r: string)
    ensures |r| == |HttpsScheme| + |NormalizeAccountId(accountId)| + |HostSuffix|
    ensures r[..|HttpsScheme|] == HttpsScheme
    ensures r[|HttpsScheme|..|r| - |HostSuffix|] == NormalizeAccountId(accountId)
    ensures r[|r| - |HostSuffix|..] == HostSuffix
  {
    var id := NormalizeAccountId(accountId);
    var r := HttpsScheme + id + HostSuffix;
    assert r[|HttpsScheme|..|r| - |HostSuffix|] == id;
    r
  }

  /** The OAuth token endpoint: the host followed by the token path. */
  function TokenUrl(accountId: string): (r: string)
    ensures |r| == |Host(accountId)| + 12
    ensures r[..|Host(accountId)|] == Host(accountId)
    ensures r[|Host(accountId)|..] == "/oauth/token"
  {
    Host(accountId) + "/oauth/token"
  }

  /** The records endpoint of a table: the host, then the table name read
      back from between the tables path and the records path. */
  function RecordsUrl(accountId: string, table: string): (r: string)
    ensures |r| == |Host(accountId)| + 16 + |table| + 8
    ensures r[..|Host(accountId)|] == Host(accountId)
    ensures r[|Host(accountId)|..|Host(accountId)| + 16] == "/rest/v2/tables/"
    ensures r[|Host(accountId)| + 16..|r| - 8] == table
    ensures r[|r| - 8..] == "/records"
  {
    var h := Host(accountId);
    var r := h + "/rest/v2/tables/" + table + "/records";
    assert r[|h| + 16..|r| - 8] == table;
    r
  }

  /** Removing the schemes leaves a string without a colon unchanged. */
  lemma SchemesAbsent(t: string)
    requires ':' !in t
    ensures StripSchemes(t) == t
  {
    assert ':' in HttpsScheme && ':' in HttpScheme;
    RemoveAllAbsent(t, HttpsScheme, ':');
    RemoveAllAbsent(t, HttpScheme, ':');
  }

  /** A leading `https://` is removed and nothing else is. */
  lemma SchemesHttps(t: string)
    requires ':' !in t
    ensures StripSchemes(HttpsScheme + t) == t
  {
    RemoveAllLeading(HttpsScheme, t);
    SchemesAbsent(t);
  }

  /** `https://` does not occur in `http://` followed by a colon-free
      string: at 0 the window has ':' where `https://` has 's', at 1..6 it
      does not start with 'h', and from 7 on it has no colon. */
  lemma HttpsAbsentAfterHttp(t: string)
    requires ':' !in t
    ensures RemoveAll(HttpScheme + t, HttpsScheme) == HttpScheme + t
  {
    var s := HttpScheme + t;
    if |HttpsScheme| <= |s| {
      assert s[..|HttpsScheme|] != HttpsScheme by {
        assert s[..|HttpsScheme|][4] == ':' != HttpsScheme[4];
      }
      assert s == [s[0]] + s[1..];
      assert s[1..] == "ttp://" + t;
      RemoveAllKeepsPrefix("ttp://", t, HttpsScheme);
      RemoveAllAbsent(t, HttpsScheme, ':');
    }
  }

  /** A leading `http://` is removed and nothing else is. */
  lemma SchemesHttp(t: string)
    requires ':' !in t
    ensures StripSchemes(HttpScheme + t) == t
  {
    HttpsAbsentAfterHttp(t);
    RemoveAllLeading(HttpScheme, t);
    assert ':' in HttpScheme;
    RemoveAllAbsent(t, HttpScheme, ':');
  }

  /** A string without a dot does not end with the host suffix. */
  lemma NoSuffixWithoutDot(s: string)
    requires '.' !in s
    ensures DropHostSuffix(s) == s
  {
    if |HostSuffix| <= |s| {
      var w := s[|s| - |HostSuffix|..];
      assert w[0] == s[|s| - |HostSuffix|];
      assert w[0] != HostSuffix[0];
    }
  }

  /** `x` followed by the suffix loses the suffix. */
  lemma SuffixRemoved(x: string)
    requires '.' !in x
    ensures DropHostSuffix(x + HostSuffix) == x
  {
    var s := x + HostSuffix;
    assert EndsWith(s, HostSuffix) by {
      assert s[|s| - |HostSuffix|..] == HostSuffix;
    }
    RemoveAllKeepsPrefix(x, HostSuffix, HostSuffix);
    RemoveAllLeading(HostSuffix, []);
    assert HostSuffix + [] == HostSuffix;
  }

  /** The round trip of the host: a plain account id, written bare, with
      either scheme, with the host suffix, or both, normalises to itself. */
  lemma NormalizePlainId(x: string)
    requires PlainId(x)
    ensures NormalizeAccountId(x) == x
    ensures NormalizeAccountId(x + HostSuffix) == x
    ensures NormalizeAccountId(HttpsScheme + x) == x
    ensures NormalizeAccountId(HttpScheme + x) == x
    ensures NormalizeAccountId(HttpsScheme + (x + HostSuffix)) == x
    ensures NormalizeAccountId(HttpScheme + (x + HostSuffix)) == x
  {
    var s := x + HostSuffix;
    assert ':' !in s;
    assert NormalizeAccountId(x) == x by {
      SchemesAbsent(x);
      NoSuffixWithoutDot(x);
    }
    assert NormalizeAccountId(s) == x by {
      SchemesAbsent(s);
      SuffixRemoved(x);
    }
    assert NormalizeAccountId(HttpsScheme + x) == x by {
      SchemesHttps(x);
      NoSuffixWithoutDot(x);
    }
    assert NormalizeAccountId(HttpScheme + x) == x by {
      SchemesHttp(x);
      NoSuffixWithoutDot(x);
    }
    assert NormalizeAccountId(HttpsScheme + s) == x by {
      SchemesHttps(s);
      SuffixRemoved(x);
    }
    assert NormalizeAccountId(HttpScheme + s) == x by {
      SchemesHttp(s);
      SuffixRemoved(x);
    }
  }

  /** The six accepted spellings of a plain account id: bare, with the host
      suffix, with either scheme, and with a scheme and the suffix. */
  function Spellings(x: string): seq<string> {
    [x, x + HostSuffix, HttpsScheme + x, HttpScheme + x,
     HttpsScheme + (x + HostSuffix), HttpScheme + (x + HostSuffix)]
  }

  /** An id that normalises to `x` gets the endpoints of host
      `https://<x>.caspio.com`. */
  lemma EndpointsOf(a: string, x: string, table: string)
    requires NormalizeAccountId(a) == x
    ensures TokenUrl(a) == HttpsScheme + x + HostSuffix + "/oauth/token"
    ensures RecordsUrl(a, table) == HttpsScheme + x + HostSuffix + "/rest/v2/tables/" + table + "/records"
  {
  }

  /** Both endpoints are built on the same host, and for a plain account id
      given in any of the six accepted spellings that host is
      `https://<id>.caspio.com`. */
  lemma EndpointsOfPlainId(x: string, table: string)
    requires PlainId(x)
    ensures forall a | a in Spellings(x) ::
              && TokenUrl(a) == HttpsScheme + x + HostSuffix + "/oauth/token"
              && RecordsUrl(a, table) == HttpsScheme + x + HostSuffix + "/rest/v2/tables/" + table + "/records"
  {
    NormalizePlainId(x);
    forall a | a in Spellings(x)
      ensures TokenUrl(a) == HttpsScheme + x + HostSuffix + "/oauth/token"
      ensures RecordsUrl(a, table) == HttpsScheme + x + HostSuffix + "/rest/v2/tables/" + table + "/records"
    {
      EndpointsOf(a, x, table);
    }
  }

  /** Once the id ends with the suffix, every earlier occurrence of it goes
      too: `x.caspio.comy.caspio.com` normalises to `xy`. */
  lemma NormalizeRemovesInnerSuffix(x: string, y: string)
    requires PlainId(x) && PlainId(y)
    ensures NormalizeAccountId(x + HostSuffix + y + HostSuffix) == x + y
  {
    var s := x + HostSuffix + y + HostSuffix;
    assert ':' !in s;
    SchemesAbsent(s);
    assert EndsWith(s, HostSuffix) by {
      assert s[|s| - |HostSuffix|..] == HostSuffix;
    }
    assert s == x + (HostSuffix + (y + HostSuffix));
    RemoveAllKeepsPrefix(x, HostSuffix + (y + HostSuffix), HostSuffix);
    RemoveAllLeading(HostSuffix, y + HostSuffix);
    SuffixRemoved(y);
  }

  /** An id that does not end with the suffix keeps every inner occurrence:
      `x.caspio.comy` stays as it is for a non-empty plain `y`. */
  lemma NormalizeKeepsInnerSuffix(x: string, y: string)
    requires PlainId(x) && PlainId(y) && y != []
    ensures NormalizeAccountId(x + HostSuffix + y) == x + HostSuffix + y
  {
    var s := x + HostSuffix + y;
    assert ':' !in s;
    SchemesAbsent(s);
    var w := s[|s| - |HostSuffix|..];
    if |y| >= |HostSuffix| {
      assert w[0] == y[|y| - |HostSuffix|];
      assert w[0] != HostSuffix[0];
    } else if |y| != 7 {
      assert w[0] == HostSuffix[|y|];
      assert w[0] != HostSuffix[0];
    } else {
      assert w[2] == HostSuffix[9];
      assert w[2] != HostSuffix[2];
    }
  }
}
