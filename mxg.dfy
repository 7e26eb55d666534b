/** The MXG front end: waveform download, waveform loading, and the lookup of
    a waveform in one of the generator's memory catalogs. The generator is an
    Instrument; every operation here goes through its SCPI methods. */
module Mxg {
  import opened Outcomes
  import opened Strings
  import opened Transport
  import opened Instruments

  /** The generator stores file names of at most this many characters. */
  const MAX_NAME_LENGTH: int := 23
  const NAME_TOO_LONG: string := "File name too long (>23 characters)"
  const DOWNLOAD_TIMEOUT_MS: int := 5000

  /** Catalog of loaded waveforms (volatile memory), of stored waveforms
      (non-volatile memory), and the one IsWaveformLoaded reads. */
  const VOLATILE_CATALOG: string := "SWFM1"
  const NONVOLATILE_CATALOG: string := "SNVWFM"
  const LOADED_CATALOG: string := "WFM1"

  /** The separator between the quoted entries of a catalog answer. */
  const ENTRY_SEPARATOR: string := "\",\""

  // ------------------------------------------------------------------ commands

  /** The header of the block write that stores a waveform: the catalog without
      its trailing colons, one colon, then the name. */
  function DownloadCommand(catalog: string, name: string): string
  {
    "MEM:DATA \"" + TrimEnd(catalog, {':'}) + ":" + name + "\","
  }

  /** Trailing colons on the catalog name make no difference to the command. */
  lemma DownloadCommandTrailingColons(catalog: string, colons: string, name: string)
    requires forall k :: 0 <= k < |colons| ==> colons[k] == ':'
    ensures DownloadCommand(catalog + colons, name) == DownloadCommand(catalog, name)
  {
    TrimEndAppend(catalog, colons, {':'});
  }

  /** The catalog part of the command never ends in a colon, so exactly one
      colon separates it from the name. */
  lemma DownloadCommandOneColon(catalog: string, name: string)
    ensures var c := TrimEnd(catalog, {':'});
      && DownloadCommand(catalog, name) == "MEM:DATA \"" + c + ":" + name + "\","
      && (c == [] || c[|c| - 1] != ':')
      && catalog == c + catalog[|c|..]
      && forall k :: |c| <= k < |catalog| ==> catalog[k] == ':'
  {
    var c := TrimEnd(catalog, {':'});
    assert catalog == c + catalog[|c|..];
  }

  /** The command that copies a stored waveform into the playback memory. */
  function LoadCommand(name: string): string
  {
    "MEM:COPY \"SNVWFM:" + name + "\", \"SWFM1:" + name + "\""
  }

  /** The query for the listing of one catalog. */
  function CatalogQuery(catalogName: string): string
  {
    "MMEM:CAT? '" + catalogName + "'"
  }

  /** Text framed by a fixed prefix and suffix determines what is inside. */
  lemma FramedInjective(p: string, x: string, y: string, q: string)
    requires p + x + q == p + y + q
    ensures x == y
  {
    assert |x| == |y|;
    assert x == (p + x + q)[|p|..|p| + |x|];
    assert y == (p + y + q)[|p|..|p| + |y|];
  }

  /** Different waveforms are loaded with different commands. */
  lemma LoadCommandInjective(a: string, b: string)
    requires LoadCommand(a) == LoadCommand(b)
    ensures a == b
  {
    var p := "MEM:COPY \"SNVWFM:";
    assert LoadCommand(a) == p + a + ("\", \"SWFM1:" + a + "\"");
    assert |a| == |b|;
    assert a == LoadCommand(a)[|p|..|p| + |a|];
    assert b == LoadCommand(b)[|p|..|p| + |b|];
  }

  /** Different catalogs are queried with different commands. */
  lemma CatalogQueryInjective(a: string, b: string)
    requires CatalogQuery(a) == CatalogQuery(b)
    ensures a == b
  {
    FramedInjective("MMEM:CAT? '", a, b, "'");
  }

  // ------------------------------------------------------------------ catalogs

  /** One entry of a catalog listing: the fields IsInCatalog reads. */
  datatype CatalogEntry = CatalogEntry(name: string, size: int)

  /** The first token loses everything up to and including its first quote. */
  function AfterFirstQuote(t: string): (r: string)
    ensures '"' !in t ==> r == t
    ensures '"' in t ==> |r| < |t| && r == t[|t| - |r|..] && t[|t| - |r| - 1] == '"' && '"' !in t[..|t| - |r| - 1]
  {
    t[IndexOf(t, '"') + 1..]
  }

  /** The clean-up of a split catalog answer: the first token loses its header,
      then the last (which is the first too when there is only one) goes
      through CleanScpiQuery; the tokens between are kept. */
  function CleanEnds(pieces: seq<string>): (r: seq<string>)
    requires pieces != []
    ensures |r| == |pieces|
    ensures forall i :: 0 < i < |pieces| - 1 ==> r[i] == pieces[i]
    ensures |pieces| == 1 ==> r[0] == CleanScpiQuery(AfterFirstQuote(pieces[0]))
    ensures |pieces| > 1 ==> r[0] == AfterFirstQuote(pieces[0]) && r[|pieces| - 1] == CleanScpiQuery(pieces[|pieces| - 1])
  {
    var first := pieces[0 := AfterFirstQuote(pieces[0])];
    first[|pieces| - 1 := CleanScpiQuery(first[|pieces| - 1])]
  }

  /** The tokens of a catalog answer: cut at `","`, empty pieces dropped, then
      cleaned at both ends. An answer without any piece fails as the indexing
      of `tokens[0]` does. */
  function CatalogTokens(response: string): (r: Result<seq<string>>)
    ensures var ts := NonEmpty(Split(response, ENTRY_SEPARATOR));
      && (r.Err? <==> ts == [])
      && (r.Err? ==> r.error == IndexOutOfRange)
      && (r.Ok? ==> r.value == CleanEnds(ts))
  {
    var ts := NonEmpty(Split(response, ENTRY_SEPARATOR));
    if ts == [] then Err(IndexOutOfRange) else Ok(CleanEnds(ts))
  }

  /** One token as `name,type,size`: fewer than three fields is an index error,
      and the size must be a 64-bit integer. */
  function ParseEntry(token: string): (r: Result<CatalogEntry>)
    ensures var fields := Split(token, ",");
      && (|fields| < 3 ==> r == Err(IndexOutOfRange))
      && (|fields| >= 3 ==> (r.Ok? <==> ParseLong(fields[2]).Ok?))
      && (r.Ok? ==> r.value == CatalogEntry(fields[0], ParseLong(fields[2]).value))
      && (r.Ok? ==> MIN_LONG <= r.value.size <= MAX_LONG)
  {
    var fields := Split(token, ",");
    if |fields| < 3 then Err(IndexOutOfRange)
    else match ParseLong(fields[2])
      case Err(e) => Err(e)
      case Ok(size) => Ok(CatalogEntry(fields[0], size))
  }

  /** An entry matches when the names agree up to case and, for a positive
      requested size, the sizes agree as well. */
  predicate Matches(e: CatalogEntry, name: string, size: int)
  {
    ToLower(e.name) == ToLower(name) && (size > 0 ==> e.size == size)
  }

  /** The loop of IsInCatalog over the tokens: the first matching entry answers
      true, a token that does not parse before that fails, and no match is false. */
  function Scan(tokens: seq<string>, name: string, size: int): Result<bool>
    decreases |tokens|
  {
    if tokens == [] then Ok(false)
    else match ParseEntry(tokens[0])
      case Err(e) => Err(e)
      case Ok(entry) => if Matches(entry, name, size) then Ok(true) else Scan(tokens[1..], name, size)
  }

  /** What IsInCatalog answers for a catalog text. */
  function CatalogLookup(response: string, name: string, size: int): Result<bool>
  {
    match CatalogTokens(response)
    case Err(e) => Err(e)
    case Ok(tokens) => Scan(tokens, name, size)
  }

  /** Every token before `i` parses and does not match. */
  ghost predicate PassesBefore(tokens: seq<string>, name: string, size: int, i: int)
  {
    0 <= i <= |tokens| &&
    forall k :: 0 <= k < i ==> ParseEntry(tokens[k]).Ok? && !Matches(ParseEntry(tokens[k]).value, name, size)
  }

  /** Token `i` is the first that matches, and every token before it parses. */
  ghost predicate FirstMatchAt(tokens: seq<string>, name: string, size: int, i: int)
  {
    PassesBefore(tokens, name, size, i) && i < |tokens|
    && ParseEntry(tokens[i]).Ok? && Matches(ParseEntry(tokens[i]).value, name, size)
  }

  lemma PassesBeforeTail(tokens: seq<string>, name: string, size: int, i: int)
    requires tokens != [] && 0 <= i < |tokens|
    requires ParseEntry(tokens[0]).Ok? && !Matches(ParseEntry(tokens[0]).value, name, size)
    ensures PassesBefore(tokens, name, size, i + 1) <==> PassesBefore(tokens[1..], name, size, i)
  {
    if PassesBefore(tokens[1..], name, size, i) {
      forall k | 0 <= k < i + 1
        ensures ParseEntry(tokens[k]).Ok? && !Matches(ParseEntry(tokens[k]).value, name, size)
      {
        if k > 0 {
          assert tokens[k] == tokens[1..][k - 1];
        }
      }
    }
    if PassesBefore(tokens, name, size, i + 1) {
      forall k | 0 <= k < i
        ensures ParseEntry(tokens[1..][k]).Ok? && !Matches(ParseEntry(tokens[1..][k]).value, name, size)
      {
        assert tokens[1..][k] == tokens[k + 1];
      }
    }
  }

  /** The scan is false exactly when every token parses and none matches. */
  lemma {:induction false} ScanFalseIff(tokens: seq<string>, name: string, size: int)
    ensures Scan(tokens, name, size) == Ok(false) <==> PassesBefore(tokens, name, size, |tokens|)
    decreases |tokens|
  {
    if tokens != [] {
      var head := ParseEntry(tokens[0]);
      if head.Ok? && !Matches(head.value, name, size) {
        ScanFalseIff(tokens[1..], name, size);
        PassesBeforeTail(tokens, name, size, |tokens| - 1);
      }
    }
  }

  /** A first match makes the scan true. */
  lemma {:induction false} ScanTrueAt(tokens: seq<string>, name: string, size: int, i: int)
    requires FirstMatchAt(tokens, name, size, i)
    ensures Scan(tokens, name, size) == Ok(true)
    decreases i
  {
    if i > 0 {
      assert ParseEntry(tokens[0]).Ok? && !Matches(ParseEntry(tokens[0]).value, name, size);
      PassesBeforeTail(tokens, name, size, i - 1);
      assert tokens[1..][i - 1] == tokens[i];
      ScanTrueAt(tokens[1..], name, size, i - 1);
    }
  }

  /** A true scan has a first match. */
  lemma {:induction false} ScanTrueWitness(tokens: seq<string>, name: string, size: int) returns (i: int)
    requires Scan(tokens, name, size) == Ok(true)
    ensures FirstMatchAt(tokens, name, size, i)
    decreases |tokens|
  {
    var head := ParseEntry(tokens[0]);
    if Matches(head.value, name, size) {
      i := 0;
    } else {
      var j := ScanTrueWitness(tokens[1..], name, size);
      PassesBeforeTail(tokens, name, size, j);
      assert tokens[1..][j] == tokens[j + 1];
      i := j + 1;
    }
  }

  /** The scan is true exactly when some token is the first match. */
  lemma ScanTrueIff(tokens: seq<string>, name: string, size: int)
    ensures Scan(tokens, name, size) == Ok(true) <==> exists i :: FirstMatchAt(tokens, name, size, i)
  {
    if Scan(tokens, name, size) == Ok(true) {
      var i := ScanTrueWitness(tokens, name, size);
    }
    if exists i :: FirstMatchAt(tokens, name, size, i) {
      var i :| FirstMatchAt(tokens, name, size, i);
      ScanTrueAt(tokens, name, size, i);
    }
  }

  /** Once the tokens scanned so far decide the answer, later tokens are never
      looked at; while none has matched, the scan goes on with the later ones. */
  lemma {:induction false} ScanAppend(a: seq<string>, b: seq<string>, name: string, size: int)
    ensures Scan(a + b, name, size) == if Scan(a, name, size) == Ok(false) then Scan(b, name, size) else Scan(a, name, size)
    decreases |a|
  {
    if a == [] {
      assert a + b == b;
    } else {
      assert (a + b)[0] == a[0];
      assert (a + b)[1..] == a[1..] + b;
      ScanAppend(a[1..], b, name, size);
    }
  }

  /** Names are compared up to case. */
  lemma {:induction false} ScanIgnoresCase(tokens: seq<string>, a: string, b: string, size: int)
    requires ToLower(a) == ToLower(b)
    ensures Scan(tokens, a, size) == Scan(tokens, b, size)
    decreases |tokens|
  {
    if tokens != [] {
      ScanIgnoresCase(tokens[1..], a, b, size);
    }
  }

  /** A size that is not positive is not a filter: it acts as the default -1. */
  lemma {:induction false} ScanNonPositiveSize(tokens: seq<string>, name: string, size: int)
    requires size <= 0
    ensures Scan(tokens, name, size) == Scan(tokens, name, -1)
    decreases |tokens|
  {
    if tokens != [] {
      ScanNonPositiveSize(tokens[1..], name, size);
    }
  }

  /** A match on name and size is also a match on the name alone. */
  lemma {:induction false} ScanSizeFilterNarrows(tokens: seq<string>, name: string, size: int)
    requires Scan(tokens, name, size) == Ok(true)
    ensures Scan(tokens, name, -1) == Ok(true)
    decreases |tokens|
  {
    var head := ParseEntry(tokens[0]);
    if !Matches(head.value, name, -1) {
      ScanSizeFilterNarrows(tokens[1..], name, size);
    }
  }

  /** The catalog lookup compares names up to case; in particular upper-casing
      the name first, as HasWaveform does, changes nothing. */
  lemma CatalogLookupIgnoresCase(response: string, name: string, size: int)
    ensures CatalogLookup(response, ToUpper(name), size) == CatalogLookup(response, name, size)
  {
    ToLowerOfUpper(name);
    if CatalogTokens(response).Ok? {
      ScanIgnoresCase(CatalogTokens(response).value, ToUpper(name), name, size);
    }
  }

  /** An answer with no non-empty piece fails. */
  lemma CatalogLookupEmpty(name: string, size: int)
    ensures CatalogLookup("", name, size) == Err(IndexOutOfRange)
  {
    assert Split("", ENTRY_SEPARATOR) == [""];
  }

  // ------------------------------------------------- catalog answers on the wire

  /** The entries of an answer with a prefix glued to the first and a suffix
      to the last, as they lie between the separators. */
  ghost function Framed(es: seq<string>, p: string, q: string): (r: seq<string>)
    requires es != []
    ensures |r| == |es|
    ensures |es| == 1 ==> r[0] == p + es[0] + q
    ensures |es| > 1 ==> r[0] == p + es[0] && r[|es| - 1] == es[|es| - 1] + q
    ensures forall k :: 0 < k < |es| - 1 ==> r[k] == es[k]
    decreases |es|
  {
    if |es| == 1 then [p + es[0] + q] else [p + es[0]] + Framed(es[1..], "", q)
  }

  lemma {:induction false} JoinFramed(es: seq<string>, p: string, q: string, d: string)
    requires es != []
    ensures Join(Framed(es, p, q), d) == p + Join(es, d) + q
    decreases |es|
  {
    if |es| > 1 {
      var tail := Framed(es[1..], "", q);
      var rest := Join(es[1..], d);
      JoinFramed(es[1..], "", q, d);
      assert Join(tail, d) == rest + q;
      var f := [p + es[0]] + tail;
      assert f[1..] == tail;
      assert Join(f, d) == p + es[0] + d + (rest + q);
      assert Join(es, d) == es[0] + d + rest;
    }
  }

  /** A character that differs from the separator's rules out an occurrence. */
  lemma NotSeparatorAt(s: string, i: int, j: int)
    requires 0 <= i && 0 <= j < |ENTRY_SEPARATOR| && i + j < |s| && s[i + j] != ENTRY_SEPARATOR[j]
    ensures !OccursAt(s, ENTRY_SEPARATOR, i)
  {
    if i + |ENTRY_SEPARATOR| <= |s| {
      assert s[i..i + |ENTRY_SEPARATOR|][j] == s[i + j];
    }
  }

  /** An entry without quotes cannot hold the separator, even running on into the next one. */
  lemma EntryNoneBefore(e: string)
    requires '"' !in e
    ensures NoneBefore(e, ENTRY_SEPARATOR)
  {
    forall i | 0 <= i < |e| ensures !OccursAt(e + ENTRY_SEPARATOR, ENTRY_SEPARATOR, i) {
      NotSeparatorAt(e + ENTRY_SEPARATOR, i, 0);
    }
  }

  /** The header, its quote and the first entry hold no separator, unless the
      first entry is a lone comma. */
  lemma FirstNoneBefore(header: string, e: string)
    requires '"' !in header && '"' !in e && e != ","
    ensures NoneBefore(header + "\"" + e, ENTRY_SEPARATOR)
  {
    var x := header + "\"" + e;
    var t := x + ENTRY_SEPARATOR;
    forall i | 0 <= i < |x| ensures !OccursAt(t, ENTRY_SEPARATOR, i) {
      if i < |header| {
        assert t[i] == header[i];
        NotSeparatorAt(t, i, 0);
      } else if i > |header| {
        assert t[i] == e[i - |header| - 1];
        NotSeparatorAt(t, i, 0);
      } else if |e| == 0 {
        assert t[i + 1] == '"';
        NotSeparatorAt(t, i, 1);
      } else if |e| == 1 {
        assert t[i + 1] == e[0] && e == [e[0]];
        NotSeparatorAt(t, i, 1);
      } else {
        assert t[i + 2] == e[1];
        NotSeparatorAt(t, i, 2);
      }
    }
  }

  /** The end of an answer: its closing quote, then any run of quotes, spaces
      and line ends, the characters CleanScpiQuery trims before its
      white-space trim. */
  ghost predicate Closing(q: string)
  {
    q != [] && q[0] == '"' && forall k :: 0 <= k < |q| ==> q[k] in SCPI_JUNK
  }

  /** No separator starts at or after the closing quote. */
  lemma ClosingNoSeparator(y: string, n: int, i: int)
    requires 0 <= n <= i && n < |y| && Closing(y[n..])
    ensures !OccursAt(y, ENTRY_SEPARATOR, i)
  {
    if i + 1 < |y| {
      assert y[i + 1] == y[n..][i + 1 - n];
      NotSeparatorAt(y, i, 1);
    }
  }

  /** The last entry with its closing quote and what follows holds no separator. */
  lemma LastNoneIn(e: string, q: string)
    requires '"' !in e && Closing(q)
    ensures NoneIn(e + q, ENTRY_SEPARATOR)
  {
    var y := e + q;
    assert y[|e|..] == q;
    forall i ensures !OccursAt(y, ENTRY_SEPARATOR, i) {
      if 0 <= i < |e| {
        assert y[i] == e[i];
        NotSeparatorAt(y, i, 0);
      } else if i >= |e| {
        ClosingNoSeparator(y, |e|, i);
      }
    }
  }

  /** A one-entry answer holds no separator, unless the entry is a lone comma. */
  lemma SoleNoneIn(header: string, e: string, q: string)
    requires '"' !in header && '"' !in e && e != "," && Closing(q)
    ensures NoneIn(header + "\"" + e + q, ENTRY_SEPARATOR)
  {
    var y := header + "\"" + e + q;
    var n := |header| + 1 + |e|;
    assert y[n..] == q;
    forall i ensures !OccursAt(y, ENTRY_SEPARATOR, i) {
      if 0 <= i < |header| {
        assert y[i] == header[i];
        NotSeparatorAt(y, i, 0);
      } else if i == |header| {
        if |e| == 0 {
          assert y[i + 1] == '"';
          NotSeparatorAt(y, i, 1);
        } else if |e| == 1 {
          assert y[i + 1] == e[0] && e == [e[0]];
          NotSeparatorAt(y, i, 1);
        } else {
          assert y[i + 2] == e[1];
          NotSeparatorAt(y, i, 2);
        }
      } else if |header| < i < n {
        assert y[i] == e[i - |header| - 1];
        NotSeparatorAt(y, i, 0);
      } else if i >= n {
        ClosingNoSeparator(y, n, i);
      }
    }
  }

  /** The first token loses exactly the header and its quote. */
  lemma AfterHeader(header: string, rest: string)
    requires '"' !in header
    ensures AfterFirstQuote(header + "\"" + rest) == rest
  {
    var t := header + "\"" + rest;
    assert forall k :: 0 <= k < |header| ==> t[k] == header[k];
    IndexOfFirst(t, '"', |header|);
    assert t[|header| + 1..] == rest;
  }

  /** The last token loses exactly its closing quote and what follows it. */
  lemma CleanLastEntry(e: string, q: string)
    requires e != [] && e[0] !in SCPI_JUNK + WHITE_SPACE && e[|e| - 1] !in SCPI_JUNK + WHITE_SPACE
    requires Closing(q)
    ensures CleanScpiQuery(e + q) == e
  {
    var t := e + q;
    assert t[0..|e|] == e;
    assert forall k :: |e| <= k < |t| ==> t[k] == q[k - |e|];
    TrimAt(t, SCPI_JUNK, 0, |e|);
    TrimAt(e, WHITE_SPACE, 0, |e|);
  }

  /** Entries that a catalog answer can carry: non-empty and free of quotes,
      the first not a lone comma, the last with first and last characters that
      are neither a quote, a space, a line end nor white space. */
  ghost predicate ListableEntries(es: seq<string>)
  {
    && es != []
    && (forall k :: 0 <= k < |es| ==> es[k] != "" && '"' !in es[k])
    && es[0] != ","
    && es[|es| - 1][0] !in SCPI_JUNK + WHITE_SPACE
    && es[|es| - 1][|es[|es| - 1]| - 1] !in SCPI_JUNK + WHITE_SPACE
  }

  /** The answer cut at the separators: the entries, with the header and its
      quote still on the first and the closing quote and what follows it on the last. */
  lemma SplitOfAnswer(header: string, es: seq<string>, q: string)
    requires '"' !in header && ListableEntries(es) && Closing(q)
    ensures Split(header + "\"" + Join(es, ENTRY_SEPARATOR) + q, ENTRY_SEPARATOR)
         == Framed(es, header + "\"", q)
  {
    var d := ENTRY_SEPARATOR;
    var last := |es| - 1;
    var framed := Framed(es, header + "\"", q);
    JoinFramed(es, header + "\"", q, d);
    if |es| == 1 {
      SoleNoneIn(header, es[0], q);
    } else {
      FirstNoneBefore(header, es[0]);
      LastNoneIn(es[last], q);
      forall k | 0 < k < last ensures NoneBefore(framed[k], d) {
        EntryNoneBefore(es[k]);
      }
    }
    SplitJoin(framed, d);
  }

  /** An entry alone in the answer, its first and last characters neither a
      quote, a space, a line end nor white space. */
  lemma CleanEndsSole(header: string, es: seq<string>, q: string)
    requires '"' !in header && |es| == 1 && Closing(q)
    requires var e := es[0];
      e != [] && e[0] !in SCPI_JUNK + WHITE_SPACE && e[|e| - 1] !in SCPI_JUNK + WHITE_SPACE
    ensures CleanEnds(Framed(es, header + "\"", q)) == es
  {
    var e := es[0];
    assert header + "\"" + e + q == header + "\"" + (e + q);
    AfterHeader(header, e + q);
    CleanLastEntry(e, q);
  }

  /** Two entries or more: the first loses the header, the last the closing quote. */
  lemma CleanEndsMany(header: string, es: seq<string>, q: string)
    requires '"' !in header && |es| > 1 && Closing(q)
    requires var e := es[|es| - 1];
      e != [] && e[0] !in SCPI_JUNK + WHITE_SPACE && e[|e| - 1] !in SCPI_JUNK + WHITE_SPACE
    ensures CleanEnds(Framed(es, header + "\"", q)) == es
  {
    var last := |es| - 1;
    var framed := Framed(es, header + "\"", q);
    AfterHeader(header, es[0]);
    CleanLastEntry(es[last], q);
    CleanEndsOf(framed, es);
  }

  /** CleanEnds gives `es` when the first piece cleans to `es[0]`, the last to
      the last entry, and the pieces between are the entries between. */
  lemma CleanEndsOf(pieces: seq<string>, es: seq<string>)
    requires |pieces| == |es| > 1
    requires AfterFirstQuote(pieces[0]) == es[0]
    requires CleanScpiQuery(pieces[|es| - 1]) == es[|es| - 1]
    requires forall k :: 0 < k < |es| - 1 ==> pieces[k] == es[k]
    ensures CleanEnds(pieces) == es
  {
    var r := CleanEnds(pieces);
    assert forall k :: 0 <= k < |es| ==> r[k] == es[k];
  }

  /** Cleaning the ends of those pieces leaves exactly the entries. */
  lemma CleanEndsOfFramed(header: string, es: seq<string>, q: string)
    requires '"' !in header && ListableEntries(es) && Closing(q)
    ensures Framed(es, header + "\"", q) != []
    ensures CleanEnds(Framed(es, header + "\"", q)) == es
  {
    if |es| == 1 {
      CleanEndsSole(header, es, q);
    } else {
      CleanEndsMany(header, es, q);
    }
  }

  /** A catalog answer in the generator's format, a header without quotes and
      then the entries quoted and separated by `","`, closed by a quote and any
      run of quotes, spaces and line ends, yields exactly its entries, in order. */
  lemma CatalogTokensOfAnswer(header: string, es: seq<string>, q: string)
    requires '"' !in header && ListableEntries(es) && Closing(q)
    ensures CatalogTokens(header + "\"" + Join(es, ENTRY_SEPARATOR) + q) == Ok(es)
  {
    var framed := Framed(es, header + "\"", q);
    SplitOfAnswer(header, es, q);
    assert forall k :: 0 <= k < |framed| ==> framed[k] != "";
    NonEmptyAllKept(framed);
    CleanEndsOfFramed(header, es, q);
  }

  /** A two-entry answer that ends right after its closing quote, in the
      layout `header"a","b"`, yields its two entries. */
  lemma TwoEntryAnswer(header: string, a: string, b: string)
    requires '"' !in header && '"' !in a && '"' !in b && a != "" && a != ","
    requires b != [] && b[0] !in SCPI_JUNK + WHITE_SPACE && b[|b| - 1] !in SCPI_JUNK + WHITE_SPACE
    ensures CatalogTokens(header + "\"" + a + "\",\"" + b + "\"") == Ok([a, b])
  {
    var es := [a, b];
    assert Join(es, ENTRY_SEPARATOR) == a + ENTRY_SEPARATOR + Join([b], ENTRY_SEPARATOR);
    assert header + "\"" + a + "\",\"" + b + "\"" == header + "\"" + Join(es, ENTRY_SEPARATOR) + "\"";
    CatalogTokensOfAnswer(header, es, "\"");
  }

  /** An entry printed as `name,kind,size` parses back into its name and size. */
  lemma ParseEntryOfText(name: string, kind: string, size: int)
    requires ',' !in name && ',' !in kind && MIN_LONG <= size <= MAX_LONG
    ensures ParseEntry(name + "," + kind + "," + LongString(size)) == Ok(CatalogEntry(name, size))
  {
    var digits := LongString(size);
    assert name + "," + kind + "," + digits == (name + [','] + kind) + [','] + digits;
    SplitAppend(name + [','] + kind, ',', digits);
    SplitAppend(name, ',', kind);
    SplitWithout(name, ',');
    SplitWithout(kind, ',');
    LongStringNoComma(size);
    SplitWithout(digits, ',');
    ParseLongString(size);
  }

  /** Over tokens that all parse, the scan answers whether any entry matches. */
  lemma {:induction false} ScanOfParsed(tokens: seq<string>, name: string, size: int)
    requires forall k :: 0 <= k < |tokens| ==> ParseEntry(tokens[k]).Ok?
    ensures Scan(tokens, name, size) == Ok(exists k :: 0 <= k < |tokens| && Matches(ParseEntry(tokens[k]).value, name, size))
    decreases |tokens|
  {
    if tokens != [] {
      var tail := tokens[1..];
      assert forall k :: 0 <= k < |tail| ==> tail[k] == tokens[k + 1];
      ScanOfParsed(tail, name, size);
      if exists k :: 0 <= k < |tail| && Matches(ParseEntry(tail[k]).value, name, size) {
        var k :| 0 <= k < |tail| && Matches(ParseEntry(tail[k]).value, name, size);
        assert Matches(ParseEntry(tokens[k + 1]).value, name, size);
      }
      if exists k :: 0 < k < |tokens| && Matches(ParseEntry(tokens[k]).value, name, size) {
        var k :| 0 < k < |tokens| && Matches(ParseEntry(tokens[k]).value, name, size);
        assert Matches(ParseEntry(tail[k - 1]).value, name, size);
      }
    }
  }

  /** A well-formed catalog answer whose entries all parse lists the waveform
      exactly when one of its entries matches. */
  lemma CatalogLookupOfAnswer(header: string, es: seq<string>, q: string, name: string, size: int)
    requires '"' !in header && ListableEntries(es) && Closing(q)
    requires forall k :: 0 <= k < |es| ==> ParseEntry(es[k]).Ok?
    ensures CatalogLookup(header + "\"" + Join(es, ENTRY_SEPARATOR) + q, name, size)
         == Ok(exists k :: 0 <= k < |es| && Matches(ParseEntry(es[k]).value, name, size))
  {
    CatalogTokensOfAnswer(header, es, q);
    ScanOfParsed(es, name, size);
  }

  /** The array loop of IsInCatalog on an answer already received: the tokens
      are rewritten in place, then scanned until the first match. */
  method FindInCatalog(catalogStr: string, waveformName: string, waveformSize: int) returns (r: Result<bool>)
    ensures r == CatalogLookup(catalogStr, waveformName, waveformSize)
  {
    var pieces := NonEmpty(Split(catalogStr, ENTRY_SEPARATOR));
    var tokens := ArrayOf(pieces);
    if tokens.Length == 0 {
      return Err(IndexOutOfRange);
    }
    CleanTokenEnds(tokens);
    r := ScanTokens(tokens, waveformName, waveformSize);
  }

  /** The in-place clean-up of the token array: `tokens[0]` is rewritten
      first, then `tokens[tokens.Length - 1]`. */
  method CleanTokenEnds(tokens: array<string>)
    requires tokens.Length > 0
    modifies tokens
    ensures tokens[..] == CleanEnds(old(tokens[..]))
  {
    ghost var pieces := tokens[..];
    var last := tokens.Length - 1;
    tokens[0] := AfterFirstQuote(tokens[0]);
    ghost var first := pieces[0 := AfterFirstQuote(pieces[0])];
    assert tokens[..] == first;
    tokens[last] := CleanScpiQuery(tokens[last]);
  }

  /** The array `string.Split` hands back, holding `pieces`. */
  method ArrayOf(pieces: seq<string>) returns (a: array<string>)
    ensures fresh(a) && a[..] == pieces
  {
    a := new string[|pieces|](i requires 0 <= i < |pieces| => pieces[i]);
  }

  /** The `foreach` loop of IsInCatalog: parse each token in turn and answer at
      the first match; a token that does not parse ends the loop with its error. */
  method ScanTokens(tokens: array<string>, waveformName: string, waveformSize: int) returns (r: Result<bool>)
    ensures r == Scan(tokens[..], waveformName, waveformSize)
  {
    var i := 0;
    while i < tokens.Length
      invariant 0 <= i <= tokens.Length
      invariant Scan(tokens[..], waveformName, waveformSize) == Scan(tokens[i..], waveformName, waveformSize)
    {
      assert tokens[i..][0] == tokens[i];
      assert tokens[i..][1..] == tokens[i + 1..];
      var parsed := Split(tokens[i], ",");
      if |parsed| < 3 {
        return Err(IndexOutOfRange);
      }
      var catWfmName := parsed[0];
      var catWfmSize := ParseLong(parsed[2]);
      if catWfmSize.Err? {
        return Err(catWfmSize.error);
      }
      if waveformSize > 0 {
        if ToLower(catWfmName) == ToLower(waveformName) && catWfmSize.value == waveformSize {
          return Ok(true);
        }
      } else {
        if ToLower(catWfmName) == ToLower(waveformName) {
          return Ok(true);
        }
      }
      i := i + 1;
    }
    assert tokens[i..] == [];
    r := Ok(false);
  }

  /** What a catalog query answers from the queued replies. */
  function CatalogAnswer(replies: seq<Reply>, timeoutMs: int, name: string, size: int): Result<bool>
  {
    match Receive(replies, timeoutMs)
    case Err(e) => Err(e)
    case Ok(text) => CatalogLookup(text, name, size)
  }

  /** The two calls a catalog query makes. */
  function QueryEvents(catalogName: string, timeoutMs: int): seq<IoEvent>
  {
    [IoEvent(WriteText(CatalogQuery(catalogName)), timeoutMs), IoEvent(ReadText, timeoutMs)]
  }

  /** HasWaveform from the queued replies: the volatile catalog first, the
      non-volatile one only when the first answers false. */
  function WaveformAnswer(replies: seq<Reply>, timeoutMs: int, name: string): Result<bool>
  {
    var first := CatalogAnswer(replies, timeoutMs, ToUpper(name), -1);
    if first == Ok(false) then CatalogAnswer(Remaining(replies, timeoutMs), timeoutMs, ToUpper(name), -1) else first
  }

  /** HasWaveform is true exactly when one of the two catalogs lists the name
      (the one after an error is not consulted), whatever its case. */
  lemma WaveformAnswerIff(replies: seq<Reply>, timeoutMs: int, name: string)
    ensures WaveformAnswer(replies, timeoutMs, name) == Ok(true) <==>
      CatalogAnswer(replies, timeoutMs, name, -1) == Ok(true)
      || (CatalogAnswer(replies, timeoutMs, name, -1) == Ok(false)
          && CatalogAnswer(Remaining(replies, timeoutMs), timeoutMs, name, -1) == Ok(true))
  {
    if Answers(replies, timeoutMs) {
      CatalogLookupIgnoresCase(replies[0].text, name, -1);
    }
    var rest := Remaining(replies, timeoutMs);
    if Answers(rest, timeoutMs) {
      CatalogLookupIgnoresCase(rest[0].text, name, -1);
    }
  }

  /** The name's case does not matter to IsWaveformLoaded. */
  lemma LoadedTestIgnoresCase(catalog: string, a: string, b: string)
    requires SameIgnoringCase(a, b)
    ensures Contains(catalog, ToUpper(a)) == Contains(catalog, ToUpper(b))
  {
    ToUpperOfSame(a, b);
  }

  /** IsWaveformLoaded is a plain substring test: a loaded waveform whose name
      starts with the given name makes it count as loaded as well. */
  lemma LoadedTestMatchesPrefix(catalog: string, name: string, more: string)
    requires Contains(catalog, ToUpper(name) + more)
    ensures Contains(catalog, ToUpper(name))
  {
    var u := ToUpper(name);
    ContainsIff(catalog, u + more);
    var i :| OccursAt(catalog, u + more, i);
    assert catalog[i..i + |u|] == (u + more)[..|u|] == u;
    assert OccursAt(catalog, u, i);
    ContainsIff(catalog, u);
  }

  // ------------------------------------------------------------ the generator

  /** `GetMemoryCatalog(name)`: the text of one catalog. */
  method GetMemoryCatalog(inst: Instrument, catalogName: string) returns (r: Result<string>)
    modifies inst`log, inst`replies
    ensures !old(inst.open) ==> r == Err(NotConnected) && inst.log == old(inst.log) && inst.replies == old(inst.replies)
    ensures old(inst.open) ==>
      && inst.log == old(inst.log) + QueryEvents(catalogName, inst.timeout)
      && inst.replies == Remaining(old(inst.replies), inst.timeout)
      && r == Receive(old(inst.replies), inst.timeout)
  {
    var command := "MMEM:CAT? " + "'" + catalogName + "'";
    assert command == CatalogQuery(catalogName);
    r := inst.ScpiQuery(command, None);
  }

  /** `IsInCatalog(catalogName, waveformName, waveformSize)`. */
  method IsInCatalog(inst: Instrument, catalogName: string, waveformName: string, waveformSize: int := -1)
    returns (r: Result<bool>)
    modifies inst`log, inst`replies
    ensures !old(inst.open) ==> r == Err(NotConnected) && inst.log == old(inst.log) && inst.replies == old(inst.replies)
    ensures old(inst.open) ==>
      && inst.log == old(inst.log) + QueryEvents(catalogName, inst.timeout)
      && inst.replies == Remaining(old(inst.replies), inst.timeout)
      && r == CatalogAnswer(old(inst.replies), inst.timeout, waveformName, waveformSize)
  {
    var catalogStr := GetMemoryCatalog(inst, catalogName);
    if catalogStr.Err? {
      return Err(catalogStr.error);
    }
    r := FindInCatalog(catalogStr.value, waveformName, waveformSize);
  }

  /** `IsInVolatileMemory(name)`: look the name up among the loaded waveforms. */
  method IsInVolatileMemory(inst: Instrument, waveformName: string) returns (r: Result<bool>)
    modifies inst`log, inst`replies
    ensures !old(inst.open) ==> r == Err(NotConnected) && inst.log == old(inst.log) && inst.replies == old(inst.replies)
    ensures old(inst.open) ==>
      && inst.log == old(inst.log) + QueryEvents(VOLATILE_CATALOG, inst.timeout)
      && inst.replies == Remaining(old(inst.replies), inst.timeout)
      && r == CatalogAnswer(old(inst.replies), inst.timeout, waveformName, -1)
  {
    r := IsInCatalog(inst, "SWFM1", waveformName, -1);
  }

  /** `IsInNonvolatileMemory(name)`: look the name up among the stored waveforms. */
  method IsInNonvolatileMemory(inst: Instrument, waveformName: string) returns (r: Result<bool>)
    modifies inst`log, inst`replies
    ensures !old(inst.open) ==> r == Err(NotConnected) && inst.log == old(inst.log) && inst.replies == old(inst.replies)
    ensures old(inst.open) ==>
      && inst.log == old(inst.log) + QueryEvents(NONVOLATILE_CATALOG, inst.timeout)
      && inst.replies == Remaining(old(inst.replies), inst.timeout)
      && r == CatalogAnswer(old(inst.replies), inst.timeout, waveformName, -1)
  {
    r := IsInCatalog(inst, "SNVWFM", waveformName, -1);
  }

  /** `HasWaveform(name)`: the upper-cased name in volatile memory, or else in non-volatile memory. */
  method HasWaveform(inst: Instrument, waveformName: string) returns (r: Result<bool>)
    modifies inst`log, inst`replies
    ensures !old(inst.open) ==> r == Err(NotConnected) && inst.log == old(inst.log) && inst.replies == old(inst.replies)
    ensures old(inst.open) ==> var t := inst.timeout;
      && r == WaveformAnswer(old(inst.replies), t, waveformName)
      && var first := CatalogAnswer(old(inst.replies), t, ToUpper(waveformName), -1);
      && (first != Ok(false) ==>
            inst.log == old(inst.log) + QueryEvents(VOLATILE_CATALOG, t)
            && inst.replies == Remaining(old(inst.replies), t))
      && (first == Ok(false) ==>
            inst.log == old(inst.log) + QueryEvents(VOLATILE_CATALOG, t) + QueryEvents(NONVOLATILE_CATALOG, t)
            && inst.replies == Remaining(Remaining(old(inst.replies), t), t))
  {
    ghost var queued := inst.replies;
    var upper := ToUpper(waveformName);
    var loaded := IsInVolatileMemory(inst, upper);
    if loaded != Ok(false) {
      return loaded;
    }
    assert inst.open ==> CatalogAnswer(queued, inst.timeout, upper, -1) == Ok(false);
    r := IsInNonvolatileMemory(inst, upper);
  }

  /** `IsWaveformLoaded(name)`: the upper-cased name occurs in the text of the `WFM1` catalog. */
  method IsWaveformLoaded(inst: Instrument, waveform: string) returns (r: Result<bool>)
    modifies inst`log, inst`replies
    ensures !old(inst.open) ==> r == Err(NotConnected) && inst.log == old(inst.log) && inst.replies == old(inst.replies)
    ensures old(inst.open) ==>
      && inst.log == old(inst.log) + QueryEvents(LOADED_CATALOG, inst.timeout)
      && inst.replies == Remaining(old(inst.replies), inst.timeout)
      && r == match Receive(old(inst.replies), inst.timeout)
           case Err(e) => Err(e)
           case Ok(text) => Ok(Contains(text, ToUpper(waveform)))
  {
    var catalog := GetMemoryCatalog(inst, "WFM1");
    if catalog.Err? {
      return Err(catalog.error);
    }
    r := Ok(Contains(catalog.value, ToUpper(waveform)));
  }

  /** `LoadWaveform(name)`: copy the stored waveform into playback memory. */
  method LoadWaveform(inst: Instrument, waveformName: string) returns (r: Outcome)
    modifies inst`log
    ensures r == (if inst.open then Pass else Fail(NotConnected))
    ensures inst.log == old(inst.log) + (if inst.open then [IoEvent(WriteText(LoadCommand(waveformName)), inst.timeout)] else [])
  {
    r := inst.ScpiCommand("MEM:COPY \"SNVWFM:" + waveformName + "\", \"SWFM1:" + waveformName + "\"", None);
  }

  /** `DownloadArbFile(catalog, name, path, timeoutMs)`: check the name, read the
      file (`files` stands for the file system), write the bytes as one block,
      then wait for the generator under a timeout of at least `timeoutMs`. The
      name's length is counted in UTF-16 code units, as a .NET string counts it. */
  method DownloadArbFile(inst: Instrument, catalog: string, wfmName: string, wfmFullPathName: string,
                         files: map<string, seq<byte>>, timeoutMs: int := DOWNLOAD_TIMEOUT_MS)
    returns (r: Outcome)
    modifies inst`timeout, inst`log, inst`replies
    ensures Utf16Length(wfmName) > MAX_NAME_LENGTH ==> r == Fail(NameTooLong(NAME_TOO_LONG))
    ensures Utf16Length(wfmName) > MAX_NAME_LENGTH || wfmFullPathName !in files || !old(inst.open) ==>
      inst.timeout == old(inst.timeout) && inst.log == old(inst.log) && inst.replies == old(inst.replies)
    ensures Utf16Length(wfmName) <= MAX_NAME_LENGTH && wfmFullPathName !in files ==> r == Fail(FileNotFound(wfmFullPathName))
    ensures Utf16Length(wfmName) <= MAX_NAME_LENGTH && wfmFullPathName in files && !old(inst.open) ==> r == Fail(NotConnected)
    ensures Utf16Length(wfmName) <= MAX_NAME_LENGTH && wfmFullPathName in files && old(inst.open) ==>
      var t := RaisedTimeout(old(inst.timeout), timeoutMs);
      && inst.log == old(inst.log) + [
           IoEvent(WriteBlock(DownloadCommand(catalog, wfmName), files[wfmFullPathName]), old(inst.timeout)),
           IoEvent(WriteText(OPC_QUERY), t),
           IoEvent(NumberRead(inst.dataFormat), t)]
      && r == (if Answers(old(inst.replies), t) then Pass else Fail(BusTimeout))
      && inst.replies == Remaining(old(inst.replies), t)
      && inst.timeout == (if r.Pass? then old(inst.timeout) else t)
  {
    if Utf16Length(wfmName) > MAX_NAME_LENGTH {
      return Fail(NameTooLong(NAME_TOO_LONG));
    }
    if wfmFullPathName !in files {
      return Fail(FileNotFound(wfmFullPathName));
    }
    var data := files[wfmFullPathName];
    var trimmedCatalog := TrimEnd(catalog, {':'});
    var command := "MEM:DATA \"" + trimmedCatalog + ":" + wfmName + "\",";
    r := inst.ScpiWriteIeeeBlock(command, data);
    if r.Fail? {
      return;
    }
    r := inst.WaitForOperationCompleteWithin(timeoutMs);
  }
}
