/** The status-column lookup by header name (`find_tinh_trang_column`),
    which the reader does not call: it fixes the status column at index 19
    instead. The lookup compares each header, lowered and stripped, with the
    names of the status column; the names it is given still hold upper-case
    letters, so as written it never finds anything. */
module HeaderLookup {
  import opened Seqs
  import opened Text

  /** The names the script compares against. */
  const StatusHeaderNames: seq<string> := ["TT Updata", "TT_updata"]

  /** The same names lowered, which a lowered header can equal. */
  const LoweredStatusHeaderNames: seq<string> := ["tt updata", "tt_updata"]

  /** A header as the lookup compares it: lowered, then stripped. */
  function NormalizeHeader(h: string): string {
    Strip(Lower(h))
  }

  /** A normalised header holds no upper-case ASCII letter: lowering removes
      them all and stripping keeps only characters it was given. */
  lemma NormalizeHeaderHasNoUpper(h: string)
    ensures forall k | 0 <= k < |NormalizeHeader(h)| :: !('A' <= NormalizeHeader(h)[k] <= 'Z')
  {
    var l := Lower(h);
    forall k | 0 <= k < |Strip(l)| ensures !('A' <= Strip(l)[k] <= 'Z') {
      StripKeepsCharacters(l, Strip(l)[k]);
    }
  }

  /** The header is one of the names the script compares against. */
  predicate IsStatusHeader(h: string) {
    NormalizeHeader(h) in StatusHeaderNames
  }

  /** The header is one of the lowered names. */
  predicate IsLoweredStatusHeader(h: string) {
    NormalizeHeader(h) in LoweredStatusHeaderNames
  }

  /** `find_tinh_trang_column` as written: the index of the first header
      that normalises to one of the names, or -1. */
  function FindStatusColumnByName(headers: seq<string>): (r: int)
    ensures -1 <= r < |headers|
    ensures r == -1 <==> forall i | 0 <= i < |headers| :: !IsStatusHeader(headers[i])
    ensures r >= 0 ==> IsStatusHeader(headers[r]) && forall i | 0 <= i < r :: !IsStatusHeader(headers[i])
  {
    FirstIndex(headers, IsStatusHeader)
  }

  /** The lookup as evidently intended: the names compared in lower case. */
  function FindStatusColumnLowered(headers: seq<string>): (r: int)
    ensures -1 <= r < |headers|
    ensures r == -1 <==> forall i | 0 <= i < |headers| :: !IsLoweredStatusHeader(headers[i])
    ensures r >= 0 ==> IsLoweredStatusHeader(headers[r]) && forall i | 0 <= i < r :: !IsLoweredStatusHeader(headers[i])
  {
    FirstIndex(headers, IsLoweredStatusHeader)
  }

  /** Both names hold an upper-case 'T', which no normalised header holds. */
  lemma NormalizedHeaderNeverMatches(h: string)
    ensures !IsStatusHeader(h)
  {
    NormalizeHeaderHasNoUpper(h);
    NoUpperIsNoName(NormalizeHeader(h));
  }

  /** A string without upper-case ASCII letters is neither name. */
  lemma NoUpperIsNoName(r: string)
    requires forall k | 0 <= k < |r| :: !('A' <= r[k] <= 'Z')
    ensures r !in StatusHeaderNames
  {
    if |r| > 0 {
      assert r[0] != 'T';
    }
  }

  /** As written, the lookup returns -1 whatever the headers are, even for a
      header spelled exactly `TT Updata`. */
  lemma FindStatusColumnNeverMatches(headers: seq<string>)
    ensures FindStatusColumnByName(headers) == -1
    ensures FindStatusColumnByName(["TT Updata"]) == -1
  {
    forall i | 0 <= i < |headers|
      ensures !IsStatusHeader(headers[i])
    {
      NormalizedHeaderNeverMatches(headers[i]);
    }
    NormalizedHeaderNeverMatches("TT Updata");
  }

  /** Lowering `TT Updata` gives `tt updata`. */
  lemma LowerStatusHeader()
    ensures Lower("TT Updata") == "tt updata"
  {
    var l := Lower("TT Updata");
    forall k | 0 <= k < 9 ensures l[k] == "tt updata"[k] {
      assert l[k] == LowerChar("TT Updata"[k]);
    }
  }

  /** `tt updata` has no surrounding whitespace. */
  lemma StripLoweredStatusHeader()
    ensures Strip("tt updata") == "tt updata"
  {
    var s := "tt updata";
    assert !IsSpace(s[0]) && !IsSpace(s[|s| - 1]);
    assert TrimStart(s) == s;
    assert TrimEnd(s) == s;
  }

  /** The header `TT Updata` is one of the lowered names once normalised. */
  lemma StatusHeaderIsLowered()
    ensures IsLoweredStatusHeader("TT Updata")
  {
    LowerStatusHeader();
    StripLoweredStatusHeader();
    assert NormalizeHeader("TT Updata") == LoweredStatusHeaderNames[0];
  }

  /** The intended lookup finds the status column by its header: when
      header `n` is spelled `TT Updata` and no earlier header is a status
      name, the lookup returns `n`. */
  lemma FindStatusColumnLoweredFinds(headers: seq<string>, n: nat)
    requires n < |headers| && headers[n] == "TT Updata"
    requires forall i | 0 <= i < n :: !IsLoweredStatusHeader(headers[i])
    ensures FindStatusColumnLowered(headers) == n
  {
    StatusHeaderIsLowered();
    FirstIndexAt(headers, n, IsLoweredStatusHeader);
  }
}
