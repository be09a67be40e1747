/** The crt.sh subdomain finder: the retry loop that fetches the certificate
    records for a domain, the pipeline that turns their `name_value` fields
    into a sorted list of distinct host names, and the `get_subdomains`
    entry point. The HTTP request and JSON decoding are not modelled: each
    attempt's outcome, with the records it decoded to, is an input. */
module SubdomainFinder {
  import opened Wrappers
  import opened Text
  import opened Order

  // ---------------------------------------------------------------------
  // Records and name normalisation
  // ---------------------------------------------------------------------

  /** One decoded crt.sh row. Only `name_value` is read; the row may lack it. */
  datatype Record = Record(nameValue: Option<String>)

  /** `d.get('name_value', '')`. */
  function NameValue(d: Record): String {
    d.nameValue.GetOr("")
  }

  /** The raw names a record lists: its `name_value` split on line feeds. */
  function Lines(d: Record): seq<String> {
    Split(NameValue(d), '\n')
  }

  /** `s` begins with the wildcard label `*.`, the match of `^\*\.`. */
  predicate Wildcarded(s: String) {
    |s| >= 2 && s[0] == '*' && s[1] == '.'
  }

  /** `re.sub(r'^\*\.', '', s)`: one leading `*.` removed, if present. */
  function DropWildcard(s: String): (r: String)
    ensures Wildcarded(s) ==> s == "*." + r
    ensures !Wildcarded(s) ==> r == s
  {
    if Wildcarded(s) then s[2..] else s
  }

  /** What the finder makes of a kept raw name: stripped, lower-cased, and
      one leading `*.` removed, in that order. */
  function Normalise(n: String): (r: String)
    ensures |r| <= |n|
  {
    DropWildcard(Lower(Strip(n)))
  }

  /** A name that `Normalise` leaves as it is. */
  predicate Clean(h: String) {
    Trimmed(h) && NoUpper(h) && !Wildcarded(h)
  }

  /** `Normalise` fixes exactly the clean names. */
  lemma {:induction false} NormaliseFixedPoint(h: String)
    ensures Normalise(h) == h <==> Clean(h)
  {
    if Normalise(h) == h {
      var t := Strip(h);
      var l := Lower(t);
      StripSlice(h);
      assert |DropWildcard(l)| == if Wildcarded(l) then |l| - 2 else |l|;
      assert l == h;
      assert t == h;
      StripFixedPoint(h);
      LowerFixedPoint(h);
    }
    if Clean(h) {
      StripFixedPoint(h);
      LowerFixedPoint(h);
    }
  }

  /** Normalising is not idempotent: only one leading `*.` goes, so of
      `*.*.h` the first pass leaves `*.h` and only a second pass gives `h`. */
  lemma DoubleWildcard(h: String)
    requires Clean(h)
    ensures Normalise("*.*." + h) == "*." + h
    ensures Normalise(Normalise("*.*." + h)) == h != "*." + h
  {
    var t := "*." + h;
    var w := "*." + t;
    assert w == "*.*." + h;
    assert Trimmed(w) by {
      if h != [] {
        assert w[|w| - 1] == h[|h| - 1];
      }
    }
    assert NoUpper(w) by {
      assert forall i :: 4 <= i < |w| ==> w[i] == h[i - 4];
    }
    NormaliseTrimmedLower(w);
    assert w[2..] == t;
    WildcardRoundTrip(h);
    assert |t| == |h| + 2;
  }

  /** Normalising is not idempotent: removing `*.` can expose whitespace,
      which was stripped before the removal and so stays. */
  lemma WildcardExposesSpace(h: String)
    requires Clean(h) && h != []
    ensures Normalise("*. " + h) == " " + h
    ensures Normalise(Normalise("*. " + h)) == h != " " + h
  {
    var t := " " + h;
    var w := "*." + t;
    assert w == "*. " + h;
    assert Trimmed(w) by {
      assert w[|w| - 1] == h[|h| - 1];
    }
    assert NoUpper(w) by {
      assert forall i :: 3 <= i < |w| ==> w[i] == h[i - 3];
    }
    NormaliseTrimmedLower(w);
    assert w[2..] == t;
    LeadingSpaceStripped(" ", h);
    assert |t| == |h| + 1;
  }

  /** A whitespace run in front of a clean name is stripped. */
  lemma LeadingSpaceStripped(p: String, h: String)
    requires AllSpace(p) && Clean(h) && h != []
    ensures Normalise(p + h) == h
  {
    var s := p + h;
    assert s[|s| - 1] == h[|h| - 1];
    assert TrimEnd(s) == s;
    TrimStartAppend(p, h);
    TrimStartAllSpace(p);
    assert [] + h == h;
    NormaliseFixedPoint(h);
  }

  /** On a name with no surrounding whitespace and no upper case, only the
      wildcard removal has any effect. */
  lemma NormaliseTrimmedLower(h: String)
    requires Trimmed(h) && NoUpper(h)
    ensures Normalise(h) == DropWildcard(h)
  {
    StripFixedPoint(h);
    LowerFixedPoint(h);
  }

  /** A wildcard in front of a clean name is removed. */
  lemma WildcardRoundTrip(h: String)
    requires Clean(h)
    ensures Normalise("*." + h) == h
  {
    var w := "*." + h;
    assert Trimmed(w) by {
      if h != [] {
        assert w[|w| - 1] == h[|h| - 1];
      }
    }
    StripFixedPoint(w);
    LowerAppend("*.", h);
    LowerFixedPoint(h);
    assert Lower("*.") == "*.";
    assert Lower(w)[2..] == h;
  }

  // ---------------------------------------------------------------------
  // The extraction pipeline: the raw names of every record, kept when they
  // end with the domain, normalised, gathered into a sorted set
  // ---------------------------------------------------------------------

  /** `n` is one of the raw names some record lists. */
  ghost predicate IsRawName(records: seq<Record>, n: String) {
    exists i :: 0 <= i < |records| && n in Lines(records[i])
  }

  /** The raw names of all records, record by record, in order. */
  function RawNames(records: seq<Record>): (r: seq<String>)
    ensures forall n :: n in r <==> IsRawName(records, n)
    ensures |r| >= |records|
  {
    if records == [] then []
    else
      var r := Lines(records[0]) + RawNames(records[1..]);
      assert forall n :: IsRawName(records, n) <==> n in Lines(records[0]) || IsRawName(records[1..], n) by {
        forall n | IsRawName(records, n) && n !in Lines(records[0])
          ensures IsRawName(records[1..], n)
        {
          var i :| 0 <= i < |records| && n in Lines(records[i]);
          assert records[1..][i - 1] == records[i];
        }
        forall n | IsRawName(records[1..], n)
          ensures IsRawName(records, n)
        {
          var i :| 0 <= i < |records[1..]| && n in Lines(records[1..][i]);
          assert records[i + 1] == records[1..][i];
        }
      }
      r
  }

  /** The generator of the source: each raw name that ends with `domain`,
      as it reads before normalisation, normalised, in order. */
  function Extract(raws: seq<String>, domain: String): (r: seq<String>)
    ensures |r| <= |raws|
  {
    if raws == [] then []
    else (if EndsWith(raws[0], domain) then [Normalise(raws[0])] else []) + Extract(raws[1..], domain)
  }

  /** A name is generated exactly when it is the normalised form of a raw
      name that passes the suffix test. */
  lemma {:induction false} ExtractMembers(raws: seq<String>, domain: String)
    ensures forall s :: s in Extract(raws, domain) <==>
      exists n :: n in raws && EndsWith(n, domain) && Normalise(n) == s
  {
    if raws != [] {
      ExtractMembers(raws[1..], domain);
      assert forall n :: n in raws <==> n == raws[0] || n in raws[1..] by {
        assert raws == [raws[0]] + raws[1..];
      }
    }
  }

  /** The value of `crtsh_subdomains` once the records are in hand. */
  function Subdomains(records: seq<Record>, domain: String): (r: seq<String>)
    ensures StrictlySorted(r)
    ensures forall s :: s in r <==> exists n :: IsRawName(records, n) && EndsWith(n, domain) && Normalise(n) == s
  {
    ExtractMembers(RawNames(records), domain);
    SortedSet(Extract(RawNames(records), domain))
  }

  /** The output holds each name once. */
  lemma SubdomainsDistinct(records: seq<Record>, domain: String)
    ensures var r := Subdomains(records, domain);
      forall i, j :: 0 <= i < |r| && 0 <= j < |r| && r[i] == r[j] ==> i == j
  {
    StrictlySortedDistinct(Subdomains(records, domain));
  }

  /** No more names come out than there are raw lines in the records. */
  lemma SubdomainsBound(records: seq<Record>, domain: String)
    ensures |Subdomains(records, domain)| <= |RawNames(records)|
  {
  }

  /** The output depends only on which records occur, not on their order or repetition. */
  lemma {:induction false} SubdomainsOrderFree(a: seq<Record>, b: seq<Record>, domain: String)
    requires forall d :: d in a <==> d in b
    ensures Subdomains(a, domain) == Subdomains(b, domain)
  {
    forall n
      ensures IsRawName(a, n) <==> IsRawName(b, n)
    {
      if IsRawName(a, n) {
        var i :| 0 <= i < |a| && n in Lines(a[i]);
        assert a[i] in b;
        var j :| 0 <= j < |b| && b[j] == a[i];
      }
      if IsRawName(b, n) {
        var j :| 0 <= j < |b| && n in Lines(b[j]);
        assert b[j] in a;
        var i :| 0 <= i < |a| && a[i] == b[j];
      }
    }
    StrictlySortedUnique(Subdomains(a, domain), Subdomains(b, domain));
  }

  /** A domain for which the raw-name suffix test carries over to the
      normalised name: no upper case, and neither end is whitespace; nor
      can its first character complete a `*.` in front of it. */
  predicate SuffixSafe(domain: String) {
    domain == [] ||
    (NoUpper(domain) && !IsSpace(domain[0]) && !IsSpace(domain[|domain| - 1]) &&
     domain[0] != '.' && domain[0] != '*')
  }

  /** Normalising a raw name that ends with a suffix-safe domain keeps that ending. */
  lemma NormaliseKeepsSuffix(n: String, domain: String)
    requires SuffixSafe(domain) && EndsWith(n, domain)
    ensures EndsWith(Normalise(n), domain)
  {
    if domain != [] {
      var p := n[..|n| - |domain|];
      assert n == p + domain;
      StripKeepsSuffix(p, domain);
      var q := TrimStart(p);
      LowerAppend(q, domain);
      LowerFixedPoint(domain);
      DropWildcardKeepsSuffix(Lower(q), domain);
    }
  }

  lemma StripKeepsSuffix(p: String, domain: String)
    requires domain != [] && !IsSpace(domain[0]) && !IsSpace(domain[|domain| - 1])
    ensures Strip(p + domain) == TrimStart(p) + domain
  {
    var n := p + domain;
    assert n[|n| - 1] == domain[|domain| - 1];
    assert TrimEnd(n) == n;
    TrimStartAppend(p, domain);
  }

  lemma DropWildcardKeepsSuffix(l: String, domain: String)
    requires domain != [] && domain[0] != '.' && domain[0] != '*'
    ensures EndsWith(DropWildcard(l + domain), domain)
  {
    var s := l + domain;
    if |l| >= 2 && l[0] == '*' && l[1] == '.' {
      assert s[0] == '*' && s[1] == '.';
      assert s[2..] == l[2..] + domain;
    } else if |l| == 1 {
      assert s[1] == domain[0];
    } else if |l| == 0 {
      assert s[0] == domain[0];
    } else {
      assert s[0] == l[0] && s[1] == l[1];
    }
  }

  /** For a suffix-safe domain every name found ends with the domain. */
  lemma SubdomainsEndWithDomain(records: seq<Record>, domain: String)
    requires SuffixSafe(domain)
    ensures forall s :: s in Subdomains(records, domain) ==> EndsWith(s, domain)
  {
    forall s | s in Subdomains(records, domain)
      ensures EndsWith(s, domain)
    {
      var n :| IsRawName(records, n) && EndsWith(n, domain) && Normalise(n) == s;
      NormaliseKeepsSuffix(n, domain);
    }
  }

  /** A record without `name_value` reads as one empty raw name: it adds
      nothing unless the domain is empty, and then it adds the empty name. */
  lemma MissingNameValue(records: seq<Record>, domain: String)
    ensures domain != [] ==> Subdomains([Record(None)] + records, domain) == Subdomains(records, domain)
    ensures domain == [] ==> "" in Subdomains([Record(None)] + records, domain)
  {
    var all := [Record(None)] + records;
    assert Lines(Record(None)) == [""];
    assert Normalise("") == "" by {
      NormaliseFixedPoint("");
    }
    forall n
      ensures IsRawName(all, n) <==> n == "" || IsRawName(records, n)
    {
      if IsRawName(all, n) && n != "" {
        var i :| 0 <= i < |all| && n in Lines(all[i]);
        assert all[i] == records[i - 1];
      }
      if IsRawName(records, n) {
        var i :| 0 <= i < |records| && n in Lines(records[i]);
        assert all[i + 1] == records[i];
      }
      if n == "" {
        assert n in Lines(all[0]);
      }
    }
    if domain != [] {
      StrictlySortedUnique(Subdomains(all, domain), Subdomains(records, domain));
    } else {
      assert IsRawName(all, "") && EndsWith("", domain);
    }
  }

  /** A record listing a single raw name `v` yields its normalised form
      exactly when `v` as it stands ends with the domain. */
  lemma SingleName(v: String, domain: String)
    requires '\n' !in v
    ensures Subdomains([Record(Some(v))], domain) == if EndsWith(v, domain) then [Normalise(v)] else []
  {
    var d := Record(Some(v));
    SplitJoin([v], '\n');
    assert Lines(d) == [v];
    assert [d][1..] == [];
    assert RawNames([d]) == [v] + RawNames([]) == [v];
    var e := if EndsWith(v, domain) then [Normalise(v)] else [];
    assert Extract([v], domain) == e + Extract([], domain) == e;
    if EndsWith(v, domain) {
      assert SortedSet(e) == Insert(SortedSet([]), Normalise(v)) == [Normalise(v)];
    }
  }

  /** The suffix test sees the raw name: a wildcard in front of an upper-case
      spelling `u` of a clean domain (`*.EXAMPLE.com` for `example.com`)
      normalises to the domain itself, yet is kept out. */
  lemma UpperCaseDropped(u: String, domain: String)
    requires Clean(domain) && Lower(u) == domain && u != domain && '\n' !in u
    ensures Normalise("*." + u) == domain
    ensures Subdomains([Record(Some("*." + u))], domain) == []
  {
    var v := "*." + u;
    LowerAt(u);
    assert |u| == |domain|;
    assert Normalise(v) == domain by {
      assert Trimmed(v) by {
        assert v[|v| - 1] == u[|u| - 1];
        assert LowerChar(u[|u| - 1]) == domain[|domain| - 1];
      }
      StripFixedPoint(v);
      LowerAppend("*.", u);
      assert Lower("*.") == "*.";
      assert Lower(v)[2..] == domain;
    }
    assert '\n' !in v;
    assert !EndsWith(v, domain) by {
      assert v[|v| - |domain|..] == u;
    }
    SingleName(v, domain);
  }

  /** The instance `*.EXAMPLE.com` of `UpperCaseDropped`.

      This and the other lemmas about fixed strings take the strings as
      parameters pinned by `requires`, and are split into small helper
      lemmas: evaluating `Lower` and `Normalise` on string literals directly
      is more than the solver can do within its resource limit. */
  lemma UpperCaseExample(u: String, v: String, domain: String)
    requires domain == "example.com" && u == "EXAMPLE.com" && v == "*.EXAMPLE.com"
    ensures Normalise(v) == domain
    ensures Subdomains([Record(Some(v))], domain) == []
  {
    UpperExample(u, domain);
    DomainClean(domain);
    assert v == "*." + u && u != domain && '\n' !in u;
    UpperCaseDropped(u, domain);
  }

  lemma DomainClean(domain: String)
    requires domain == "example.com"
    ensures Clean(domain)
  {
  }

  lemma UpperExample(u: String, domain: String)
    requires u == "EXAMPLE.com" && domain == "example.com"
    ensures Lower(u) == domain
  {
    LowerAt(u);
    assert |Lower(u)| == |domain|;
    forall i | 0 <= i < |u|
      ensures Lower(u)[i] == domain[i]
    {
    }
  }

  /** The suffix test sees the raw name: trailing whitespace `q`, such as
      the carriage return a CRLF line ending leaves behind, keeps out a name
      `h` that ends with the domain and is what the raw name normalises to. */
  lemma TrailingSpaceDropped(h: String, q: String, domain: String)
    requires Clean(h) && h != [] && '\n' !in h
    requires q != [] && AllSpace(q) && '\n' !in q
    requires EndsWith(h, domain) && domain != []
    ensures Normalise(h + q) == h
    ensures Subdomains([Record(Some(h + q))], domain) == []
  {
    var v := h + q;
    TrailingSpaceStripped(h, q);
    assert '\n' !in v;
    assert !EndsWith(v, domain) by {
      assert v[|v| - 1] == q[|q| - 1];
      assert domain[|domain| - 1] == h[|h| - 1];
    }
    SingleName(v, domain);
  }

  /** A whitespace run after a clean name is stripped. */
  lemma TrailingSpaceStripped(h: String, q: String)
    requires Clean(h) && h != [] && AllSpace(q)
    ensures Normalise(h + q) == h
  {
    TrimEndAppend(h, q);
    assert TrimStart(h) == h;
    NormaliseFixedPoint(h);
  }

  /** The suffix test has no dot boundary: any name that ends with the
      domain's characters counts, whether or not a dot comes first. */
  lemma NoDotBoundary(v: String, domain: String)
    requires domain == "example.com" && v == "notexample.com"
    ensures Subdomains([Record(Some(v))], domain) == [v]
  {
    assert Normalise(v) == v by {
      assert Clean(v);
      NormaliseFixedPoint(v);
    }
    assert '\n' !in v && EndsWith(v, domain);
    SingleName(v, domain);
  }

  /** A domain with trailing whitespace is not suffix-safe: the raw name
      matches, then stripping removes the matched ending. */
  lemma TrailingSpaceDomain(v: String, domain: String)
    requires domain == "a " && v == "x.a "
    ensures Subdomains([Record(Some(v))], domain) == ["x.a"]
    ensures !EndsWith("x.a", domain)
  {
    assert Normalise(v) == "x.a" by {
      var h := "x.a";
      assert Clean(h) && v == h + [' '];
      TrailingSpaceStripped(h, [' ']);
    }
    assert '\n' !in v && EndsWith(v, domain);
    SingleName(v, domain);
  }

  /** A record whose `name_value` lists `names`, one per line, yields
      `sorted(set(...))` of the names that pass the suffix test, normalised. */
  lemma OneRecord(names: seq<String>, domain: String)
    requires |names| >= 1
    requires forall k :: 0 <= k < |names| ==> '\n' !in names[k]
    ensures Subdomains([Record(Some(Join(names, '\n')))], domain) == SortedSet(Extract(names, domain))
  {
    var d := Record(Some(Join(names, '\n')));
    SplitJoin(names, '\n');
    assert [d][1..] == [];
    assert RawNames([d]) == names + [] == names;
  }

  /** A crt.sh row listing an upper-case wildcard and a repeated name: the
      wildcard entry fails the raw suffix test, so `example.com` is not
      listed, and the repeat is listed once. */
  lemma MixedRowExample(v: String, domain: String)
    requires domain == "example.com"
    requires v == Join(["*.EXAMPLE.com", "foo.example.com", "bar.example.com", "bar.example.com"], '\n')
    ensures Subdomains([Record(Some(v))], domain) == ["bar.example.com", "foo.example.com"]
  {
    ExampleNames("*.EXAMPLE.com", "foo.example.com", "bar.example.com", domain, v);
  }

  lemma ExampleNames(w: String, foo: String, bar: String, domain: String, v: String)
    requires domain == "example.com"
    requires w == "*.EXAMPLE.com" && foo == "foo.example.com" && bar == "bar.example.com"
    requires v == Join([w, foo, bar, bar], '\n')
    ensures Subdomains([Record(Some(v))], domain) == [bar, foo]
  {
    ExampleFacts(w, foo, bar, domain);
    OneRecord([w, foo, bar, bar], domain);
    KeptExample(w, foo, bar, domain);
    SortedExample(foo, bar);
  }

  lemma ExampleFacts(w: String, foo: String, bar: String, domain: String)
    requires domain == "example.com"
    requires w == "*.EXAMPLE.com" && foo == "foo.example.com" && bar == "bar.example.com"
    ensures '\n' !in w && '\n' !in foo && '\n' !in bar
    ensures !EndsWith(w, domain) && EndsWith(foo, domain) && EndsWith(bar, domain)
    ensures Normalise(foo) == foo && Normalise(bar) == bar
    ensures Less(bar, foo)
  {
    ExampleSuffixes(w, foo, bar, domain);
    ExampleClean(foo);
    ExampleClean(bar);
    NormaliseFixedPoint(foo);
    NormaliseFixedPoint(bar);
    assert bar[0] < foo[0];
  }

  lemma ExampleSuffixes(w: String, foo: String, bar: String, domain: String)
    requires domain == "example.com"
    requires w == "*.EXAMPLE.com" && foo == "foo.example.com" && bar == "bar.example.com"
    ensures !EndsWith(w, domain) && EndsWith(foo, domain) && EndsWith(bar, domain)
  {
  }

  lemma ExampleClean(h: String)
    requires h == "foo.example.com" || h == "bar.example.com"
    ensures '\n' !in h && Clean(h)
  {
  }

  lemma SortedExample(foo: String, bar: String)
    requires Less(bar, foo)
    ensures SortedSet([foo, bar, bar]) == [bar, foo]
  {
    assert forall y :: y in [foo, bar, bar] <==> y in [bar, foo];
    StrictlySortedUnique(SortedSet([foo, bar, bar]), [bar, foo]);
  }

  lemma KeptExample(w: String, foo: String, bar: String, domain: String)
    requires !EndsWith(w, domain) && EndsWith(foo, domain) && EndsWith(bar, domain)
    ensures Extract([w, foo, bar, bar], domain) == [Normalise(foo), Normalise(bar), Normalise(bar)]
  {
    ExtractKeep(bar, [], domain);
    ExtractKeep(bar, [bar], domain);
    ExtractKeep(foo, [bar, bar], domain);
    ExtractSkip(w, [foo, bar, bar], domain);
    assert [bar] + [] == [bar] && [bar] + [bar] == [bar, bar];
    assert [foo] + [bar, bar] == [foo, bar, bar] && [w] + [foo, bar, bar] == [w, foo, bar, bar];
  }

  lemma ExtractKeep(n: String, rest: seq<String>, domain: String)
    requires EndsWith(n, domain)
    ensures Extract([n] + rest, domain) == [Normalise(n)] + Extract(rest, domain)
  {
    assert ([n] + rest)[1..] == rest;
  }

  lemma ExtractSkip(n: String, rest: seq<String>, domain: String)
    requires !EndsWith(n, domain)
    ensures Extract([n] + rest, domain) == Extract(rest, domain)
  {
    assert ([n] + rest)[1..] == rest;
  }

  // ---------------------------------------------------------------------
  // The retry loop and the two entry points
  // ---------------------------------------------------------------------

  /** The loop quits once the attempt counter exceeds this after a failure. */
  const QuitAfter := 15

  /** So at most this many requests are made. */
  const MaxAttempts := QuitAfter + 1

  const OkStatus := 200

  /** What one GET to crt.sh came to: a response with its status code and
      the records its body decodes to, or an exception (timeout, refused
      connection, ...). */
  datatype Attempt = Response(status: int, records: seq<Record>) | Raised

  predicate Succeeded(a: Attempt) {
    a.Response? && a.status == OkStatus
  }

  /** How the retry loop ends: with the records of a 200 response and the
      number of requests made, or in `quit()`. */
  datatype Fetch = Fetched(attempts: nat, records: seq<Record>) | Exhausted

  /** The outcome of the loop from attempt `k` (0-based) on, given the
      outcome of every request. */
  function FirstSuccess(outcomes: nat -> Attempt, k: nat): (r: Fetch)
    requires k <= MaxAttempts
    ensures r.Fetched? ==>
      && k < r.attempts <= MaxAttempts
      && Succeeded(outcomes(r.attempts - 1))
      && r.records == outcomes(r.attempts - 1).records
      && forall j :: k <= j < r.attempts - 1 ==> !Succeeded(outcomes(j))
    ensures r.Exhausted? <==> forall j :: k <= j < MaxAttempts ==> !Succeeded(outcomes(j))
    decreases MaxAttempts - k
  {
    if k == MaxAttempts then Exhausted
    else if Succeeded(outcomes(k)) then Fetched(k + 1, outcomes(k).records)
    else FirstSuccess(outcomes, k + 1)
  }

  /** The loop of `crtsh_subdomains`: count the attempt, send the request,
      stop on status 200; otherwise (another status or an exception alike)
      quit once the counter exceeds `QuitAfter`, else try again. */
  method RetryFetch(outcomes: nat -> Attempt) returns (res: Fetch)
    ensures res == FirstSuccess(outcomes, 0)
  {
    var x := 0;
    while true
      invariant 0 <= x <= QuitAfter
      invariant FirstSuccess(outcomes, x) == FirstSuccess(outcomes, 0)
      decreases MaxAttempts - x
    {
      x := x + 1;
      var r := outcomes(x - 1);
      if r.Response? && r.status == OkStatus {
        return Fetched(x, r.records);
      }
      if x > QuitAfter {
        return Exhausted;
      }
    }
  }

  /** Exceptions and non-200 statuses are alike to the loop: two runs whose
      requests succeed at the same attempts, with the same records, end the same. */
  lemma {:induction false} FailuresAlike(a: nat -> Attempt, b: nat -> Attempt, k: nat)
    requires k <= MaxAttempts
    requires forall j :: k <= j < MaxAttempts ==> (Succeeded(a(j)) <==> Succeeded(b(j)))
    requires forall j :: k <= j < MaxAttempts && Succeeded(a(j)) && Succeeded(b(j)) ==> a(j).records == b(j).records
    ensures FirstSuccess(a, k) == FirstSuccess(b, k)
    decreases MaxAttempts - k
  {
    if k < MaxAttempts {
      if Succeeded(a(k)) {
        assert Succeeded(b(k)) && a(k).records == b(k).records;
      } else {
        assert !Succeeded(b(k));
        FailuresAlike(a, b, k + 1);
      }
    }
  }

  /** What `crtsh_subdomains` comes to: the sorted names, or `quit()`. */
  datatype Answer = Listed(names: seq<String>) | Quit

  /** The result of `crtsh_subdomains(domain)` given the outcome of every request. */
  function Crtsh(outcomes: nat -> Attempt, domain: String): (r: Answer)
    ensures r.Quit? <==> forall j :: 0 <= j < MaxAttempts ==> !Succeeded(outcomes(j))
    ensures r.Listed? ==> StrictlySorted(r.names)
  {
    match FirstSuccess(outcomes, 0)
    case Exhausted => Quit
    case Fetched(_, records) => Listed(Subdomains(records, domain))
  }

  /** When attempt `k` is the first to get a 200 within the retry budget,
      the names come from the records of that response. */
  lemma CrtshFirstSuccess(outcomes: nat -> Attempt, domain: String, k: nat)
    requires k < MaxAttempts && Succeeded(outcomes(k))
    requires forall j :: 0 <= j < k ==> !Succeeded(outcomes(j))
    ensures Crtsh(outcomes, domain) == Listed(Subdomains(outcomes(k).records, domain))
  {
    var f := FirstSuccess(outcomes, 0);
    assert f.Fetched?;
    assert f.attempts - 1 == k;
  }

  /** `crtsh_subdomains`: fetch with retries, then extract the names. */
  method CrtshSubdomains(outcomes: nat -> Attempt, domain: String) returns (res: Answer)
    ensures res == Crtsh(outcomes, domain)
  {
    var fetched := RetryFetch(outcomes);
    if fetched.Exhausted? {
      return Quit;
    }
    res := Listed(Subdomains(fetched.records, domain));
  }

  /** `get_subdomains`: the crt.sh names copied into a fresh list. */
  method GetSubdomains(outcomes: nat -> Attempt, domain: String) returns (res: Answer)
    ensures res == Crtsh(outcomes, domain)
  {
    var subdomains: seq<String> := [];
    var crtshSubs := CrtshSubdomains(outcomes, domain);
    if crtshSubs.Quit? {
      return Quit;
    }
    subdomains := subdomains + crtshSubs.names;
    res := Listed(subdomains);
  }
}
