# crt.sh subdomain finder, modelled in Dafny

This project models the `subdomainFinder` class of
`JulianTesting/subdomain_finder.py`. Its job: given a domain, ask crt.sh
(a Certificate Transparency log search) for every certificate issued
under it, and turn the names those certificates cover into a sorted list
of distinct host names.

Three parts of the class are modelled:

- **The retry loop** of `crtsh_subdomains`. The counter starts at 0 and
  goes up by one before every request. A response with status 200 ends the
  loop. Any other status, and any exception, count as a failed attempt. After
  a failure the program quits once the counter exceeds 15. So at most 16
  requests are made. The outcome of each request is an input
  (`outcomes: nat -> Attempt`). `RetryFetch` is the loop, with its invariant.
  `FirstSuccess` is the function it is proved against.
- **The extraction pipeline** that runs on the decoded records:
  - take each record's `name_value`, or `""` when the field is missing;
  - split it on line feeds;
  - keep each raw name that ends with the domain, tested *before*
    normalising;
  - normalise it: strip, lower-case, then remove one leading `*.`;
  - collect the results into a set and return them sorted.

  `Subdomains` is the pipeline. It is built from `RawNames`, `Extract`,
  `Normalise` and `Order.SortedSet`.
- **`get_subdomains`**, which copies the crt.sh list into a new list.

Modules:
- `Text` holds Python's `str.strip`, `str.lower`, `str.split`
  and `str.endswith` as used here. `strip` covers ASCII whitespace
  (9–13, 28–31 and the space). `lower` is ASCII only.
- `Order` holds Python's string `<` (by code point, with a proper prefix
  first) and `sorted(set(...))`.
- `Wrappers` holds the `Option` type used for a missing field.
- `SubdomainFinder` holds everything else.

Three consequences of the code are worth knowing:

- **The suffix test sees the raw line.** A name is tested before it is
  stripped and lower-cased. So `*.EXAMPLE.com` is dropped for the domain
  `example.com`, although it normalises to `example.com`
  (`UpperCaseDropped`, `MixedRowExample`). A trailing carriage return
  drops a name in the same way (`TrailingSpaceDropped`).
- **Normalising is not idempotent.**
  - Only one leading `*.` is removed (`DoubleWildcard`).
  - Removing `*.` can expose whitespace that the earlier strip has already
    passed (`WildcardExposesSpace`).

  `NormaliseFixedPoint` characterises exactly the names it leaves alone.
- **A listed name need not end with the domain.** That every listed name
  ends with the domain is proved for domains that meet `SuffixSafe`
  (`SubdomainsEndWithDomain`). Lacking upper case is not enough. For
  example, the domain `"a "` (with a trailing space) keeps the raw name
  `"x.a "`, which then normalises to `"x.a"` (`TrailingSpaceDomain`).

## Model

| member | source | states |
|---|---|---|
| Wrappers.Option.GetOr | JulianTesting/subdomain_finder.py:36 | `d.get('name_value', '')`: the field's value when present, the default otherwise |
| Text.IsSpace | JulianTesting/subdomain_finder.py:35 | a definition with no contract: the ASCII characters `strip()` removes (9–13, 28–31, 32) |
| Text.LowerChar | JulianTesting/subdomain_finder.py:35 | an upper-case letter `A`–`Z` becomes the letter `a`–`z` at the same offset; any other character is unchanged, whitespace included; the result is never upper case |
| Text.Lower | JulianTesting/subdomain_finder.py:35 | `lower()`: its own contract says the length is kept; `LowerAt`, `LowerFixedPoint` and `LowerAppend` state its meaning |
| Text.LowerAt | JulianTesting/subdomain_finder.py:35 | `lower()` maps every character independently and keeps the length |
| Text.LowerHasNoUpper | JulianTesting/subdomain_finder.py:35 | no upper-case letter is left after `lower()` |
| Text.LowerFixedPoint | JulianTesting/subdomain_finder.py:35 | `lower()` leaves a string unchanged exactly when it has no upper-case letter |
| Text.LowerAppend | JulianTesting/subdomain_finder.py:35 | `lower()` distributes over concatenation |
| Text.TrimStartSpec | JulianTesting/subdomain_finder.py:35 | stripping the front removes a whitespace-only prefix and stops at the first non-whitespace character |
| Text.TrimEndSpec | JulianTesting/subdomain_finder.py:35 | stripping the back removes a whitespace-only suffix and stops at the last non-whitespace character |
| Text.Strip | JulianTesting/subdomain_finder.py:35 | `strip()`: its own contract is a length bound; `StripSlice`, `StripFixedPoint` and `StripIdempotent` state its meaning |
| Text.StripSlice | JulianTesting/subdomain_finder.py:35 | `strip()` returns a contiguous slice of its input, with whitespace only on either side of it and at neither of its own ends |
| Text.StripFixedPoint | JulianTesting/subdomain_finder.py:35 | `strip()` leaves a string unchanged exactly when neither end is whitespace |
| Text.StripIdempotent | JulianTesting/subdomain_finder.py:35 | stripping twice is stripping once |
| Text.TrimStartAppend | JulianTesting/subdomain_finder.py:35 | leading whitespace stripping stops before a part that starts with non-whitespace |
| Text.TrimStartAllSpace | JulianTesting/subdomain_finder.py:35 | leading whitespace stripping removes all of a whitespace-only string |
| Text.TrimEndAppend | JulianTesting/subdomain_finder.py:35 | trailing whitespace stripping removes exactly a whitespace run after a part that ends with non-whitespace |
| Text.EndsWith | JulianTesting/subdomain_finder.py:37 | a definition with no contract: `endswith`, the last characters equal the suffix; `SingleName`, `ExtractMembers` and `NoDotBoundary` state how the filter uses it |
| Text.Split | JulianTesting/subdomain_finder.py:36 | `split('\n')`: its own contract says there is at least one piece; `SplitJoinsBack` and `SplitJoin` state its meaning |
| Text.SplitJoinsBack | JulianTesting/subdomain_finder.py:36 | `split('\n')` pieces contain no line feed and, joined with line feeds, give back the input |
| Text.SplitJoin | JulianTesting/subdomain_finder.py:36 | splitting lines joined with line feeds gives back those lines, empty ones included |
| Text.SplitPrefix | JulianTesting/subdomain_finder.py:36 | a text with no line feed in front of the rest extends the first piece of the rest |
| Order.Less | JulianTesting/subdomain_finder.py:38 | a definition with no contract: Python's `str` `<`, by code point, a proper prefix first; `LessIrreflexive`, `LessTransitive` and `LessTrichotomy` make it a strict total order |
| Order.LessIrreflexive | JulianTesting/subdomain_finder.py:38 | no string sorts before itself |
| Order.LessTransitive | JulianTesting/subdomain_finder.py:38 | string order is transitive |
| Order.LessTrichotomy | JulianTesting/subdomain_finder.py:38 | of two different strings exactly one sorts first, so the order is total |
| Order.StrictlySortedDistinct | JulianTesting/subdomain_finder.py:35-38 | a strictly sorted list holds each string once |
| Order.Insert | JulianTesting/subdomain_finder.py:35-38 | adding a string to a sorted set keeps it strictly sorted and adds exactly that string |
| Order.SortedSet | JulianTesting/subdomain_finder.py:35-38 | `sorted(set(xs))` is strictly sorted and holds exactly the strings of `xs` |
| Order.StrictlySortedUnique | JulianTesting/subdomain_finder.py:38 | two strictly sorted lists with the same members are equal |
| Order.SortedSetBySet | JulianTesting/subdomain_finder.py:35-38 | `sorted(set(xs))` depends only on the members of `xs` |
| SubdomainFinder.DropWildcard | JulianTesting/subdomain_finder.py:35 | `re.sub(r'^\*\.', '', s)`: a name starting with `*.` loses exactly those two characters, any other is unchanged |
| SubdomainFinder.Normalise | JulianTesting/subdomain_finder.py:35 | strip, then lower-case, then drop one leading `*.`; its own contract is a length bound; `NormaliseFixedPoint`, `WildcardRoundTrip`, `DoubleWildcard`, `WildcardExposesSpace` and `NormaliseKeepsSuffix` state its meaning |
| SubdomainFinder.NormaliseFixedPoint | JulianTesting/subdomain_finder.py:35 | normalising leaves a name unchanged exactly when it has no surrounding whitespace, no upper case and no leading `*.` |
| SubdomainFinder.DoubleWildcard | JulianTesting/subdomain_finder.py:35 | `*.*.h` normalises to `*.h` and only a second pass gives `h`, so normalising is not idempotent |
| SubdomainFinder.WildcardExposesSpace | JulianTesting/subdomain_finder.py:35 | `*. h` normalises to ` h` and only a second pass gives `h`, because stripping happens before the wildcard is removed |
| SubdomainFinder.LeadingSpaceStripped | JulianTesting/subdomain_finder.py:35 | any run of whitespace in front of a clean name is removed |
| SubdomainFinder.TrailingSpaceStripped | JulianTesting/subdomain_finder.py:35 | any run of whitespace after a clean name is removed |
| SubdomainFinder.NormaliseTrimmedLower | JulianTesting/subdomain_finder.py:35 | on a name with no surrounding whitespace and no upper case, only the wildcard removal acts |
| SubdomainFinder.WildcardRoundTrip | JulianTesting/subdomain_finder.py:35 | `*.` put in front of a clean name is taken off again |
| SubdomainFinder.NameValue | JulianTesting/subdomain_finder.py:36 | a definition with no contract: `d.get('name_value', '')`, whose meaning `Wrappers.Option.GetOr` and `MissingNameValue` state |
| SubdomainFinder.Lines | JulianTesting/subdomain_finder.py:36 | a definition with no contract: the field split on line feeds, whose meaning `SplitJoinsBack`, `SplitJoin` and `SingleName` state |
| SubdomainFinder.RawNames | JulianTesting/subdomain_finder.py:36 | the raw names are exactly the line-feed pieces of the records' `name_value` fields, with at least as many raw names as records |
| SubdomainFinder.Extract | JulianTesting/subdomain_finder.py:35-37 | the generator: each raw name that passes the raw suffix test, normalised, in order; its own contract is a length bound; `ExtractMembers` states its meaning |
| SubdomainFinder.ExtractMembers | JulianTesting/subdomain_finder.py:35-37 | a name is generated exactly when it is the normalised form of a raw name that ends with the domain before normalising |
| SubdomainFinder.Subdomains | JulianTesting/subdomain_finder.py:35-38 | the result is strictly sorted and holds exactly the normalised forms of the raw names that pass the suffix test |
| SubdomainFinder.SubdomainsDistinct | JulianTesting/subdomain_finder.py:35-38 | each name is listed once |
| SubdomainFinder.SubdomainsBound | JulianTesting/subdomain_finder.py:35-38 | no more names than raw lines |
| SubdomainFinder.SubdomainsOrderFree | JulianTesting/subdomain_finder.py:35-38 | the result depends only on which records occur, not on their order or repetition |
| SubdomainFinder.NormaliseKeepsSuffix | JulianTesting/subdomain_finder.py:35-37 | for a suffix-safe domain, a raw name ending with the domain still ends with it after normalising |
| SubdomainFinder.SubdomainsEndWithDomain | JulianTesting/subdomain_finder.py:35-38 | for a suffix-safe domain every listed name ends with the domain |
| SubdomainFinder.TrailingSpaceDomain | JulianTesting/subdomain_finder.py:35-37 | with the domain `"a "`, the raw name `"x.a "` is listed as `"x.a"`, which does not end with the domain |
| SubdomainFinder.MissingNameValue | JulianTesting/subdomain_finder.py:36 | a record without `name_value` reads as one empty line: it adds nothing for a non-empty domain, and the empty name for the empty domain |
| SubdomainFinder.SingleName | JulianTesting/subdomain_finder.py:35-38 | a record with one raw name yields its normalised form exactly when the raw name ends with the domain |
| SubdomainFinder.UpperCaseDropped | JulianTesting/subdomain_finder.py:35-37 | `*.` followed by an upper-case spelling of the domain normalises to the domain, yet is not listed |
| SubdomainFinder.UpperCaseExample | JulianTesting/subdomain_finder.py:35-37 | `*.EXAMPLE.com` normalises to `example.com` but yields nothing for the domain `example.com` |
| SubdomainFinder.TrailingSpaceDropped | JulianTesting/subdomain_finder.py:35-37 | a name ending with the domain, followed by a run of whitespace without a line feed (such as a CR), is not listed, although it normalises to that name |
| SubdomainFinder.NoDotBoundary | JulianTesting/subdomain_finder.py:37 | `notexample.com` is listed for `example.com`: the suffix test has no label boundary |
| SubdomainFinder.OneRecord | JulianTesting/subdomain_finder.py:35-38 | one record listing several lines yields the sorted set of the kept lines, normalised |
| SubdomainFinder.MixedRowExample | JulianTesting/subdomain_finder.py:35-38 | one row with the lines `*.EXAMPLE.com`, `foo.example.com`, `bar.example.com` and `bar.example.com` yields `["bar.example.com", "foo.example.com"]` for `example.com` |
| SubdomainFinder.Succeeded | JulianTesting/subdomain_finder.py:20 | a definition with no contract: an attempt succeeds exactly when it got a response with status 200; an exception never succeeds |
| SubdomainFinder.FirstSuccess | JulianTesting/subdomain_finder.py:14-30 | the loop ends with the records of the first 200 response among at most 16 attempts, every earlier attempt having failed, or quits exactly when all 16 fail |
| SubdomainFinder.RetryFetch | JulianTesting/subdomain_finder.py:14-30 | the loop, with its counter, returns what `FirstSuccess` says |
| SubdomainFinder.FailuresAlike | JulianTesting/subdomain_finder.py:17-24 | exceptions and non-200 responses are alike to the loop: runs that succeed at the same attempts with the same records end the same |
| SubdomainFinder.Crtsh | JulianTesting/subdomain_finder.py:13-38 | `crtsh_subdomains` quits exactly when all 16 attempts fail, and otherwise returns a strictly sorted list |
| SubdomainFinder.CrtshFirstSuccess | JulianTesting/subdomain_finder.py:14-38 | when attempt `k` is the first success, the names come from that response's records |
| SubdomainFinder.CrtshSubdomains | JulianTesting/subdomain_finder.py:13-38 | retry, then extract, as `Crtsh` states |
| SubdomainFinder.GetSubdomains | JulianTesting/subdomain_finder.py:42-49 | `get_subdomains` returns the same list as `crtsh_subdomains`, and quits when it does |

## Left out

- The HTTP request (`requests.get`, the URL, the 15-second timeout), the
  two-second `time.sleep` and every `print`. These are I/O. Each attempt's
  outcome is an input instead.
- Decoding the body (`r.json()` or one `json.loads` per line, chosen by a
  leading `[`). A `Response` carries the records that its body decodes to.
  A body that does not decode raises outside the loop, and that case is not
  modelled.
- `quit()` ends the process. The model represents that as the `Quit` answer.
- A `name_value` that is JSON `null` makes `.split` raise. A `Record`'s
  `name_value` is either a string or missing.
- Unicode whitespace in `strip()` and Unicode case mapping in `lower()`.
  The model covers ASCII only.
- The module-level `subdomain_finder` instance and the `__main__` block.
  They are a demonstration run with a fixed domain.
- Text.Lower, Text.TrimStart, Text.TrimEnd, Text.Strip, Text.Split,
  SubdomainFinder.Normalise: each function's own contract states only a
  length bound (for `Split`, that there is at least one piece). Their
  meaning is stated in the lemmas listed above.
- SubdomainFinder.Extract: the function's own contract states only a length
  bound. Its membership property is stated in `ExtractMembers`.
