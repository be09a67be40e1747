/** ASCII models of the Python `str` operations that the finder applies to
    each raw certificate name: `strip()`, `lower()`, `endswith()` and
    `split('\n')`. Characters outside ASCII are left as they are. */
module Text {

  type String = seq<char>

  /** `str.isspace()` on ASCII: tab, line feed, vertical tab, form feed,
      carriage return (9..13), the four information separators (28..31)
      and space (32). */
  predicate IsSpace(c: char) {
    var k := c as int;
    (9 <= k <= 13) || (28 <= k <= 31) || k == 32
  }

  predicate IsUpper(c: char) {
    'A' <= c <= 'Z'
  }

  /** Every character of `s` is whitespace. */
  predicate AllSpace(s: String) {
    forall i :: 0 <= i < |s| ==> IsSpace(s[i])
  }

  /** No character of `s` is an upper-case ASCII letter. */
  predicate NoUpper(s: String) {
    forall i :: 0 <= i < |s| ==> !IsUpper(s[i])
  }

  /** ASCII case folding of one character. */
  function LowerChar(c: char): (r: char)
    ensures !IsUpper(r)
    ensures IsSpace(r) <==> IsSpace(c)
    ensures r == c <==> !IsUpper(c)
    ensures IsUpper(c) ==> 'a' <= r <= 'z' && r as int - c as int == 'a' as int - 'A' as int
  {
    if IsUpper(c) then (c as int + 32) as char else c
  }

  /** `str.lower()` on ASCII. */
  function Lower(s: String): (r: String)
    ensures |r| == |s|
  {
    if s == [] then [] else [LowerChar(s[0])] + Lower(s[1..])
  }

  /** Lower-casing works character by character. */
  lemma {:induction false} LowerAt(s: String)
    ensures forall i :: 0 <= i < |s| ==> Lower(s)[i] == LowerChar(s[i])
  {
    if s != [] {
      LowerAt(s[1..]);
    }
  }

  /** Lower-casing leaves no upper-case letter behind. */
  lemma LowerHasNoUpper(s: String)
    ensures NoUpper(Lower(s))
  {
    LowerAt(s);
  }

  /** A string is its own lower-case form exactly when it has no upper-case letter. */
  lemma LowerFixedPoint(s: String)
    ensures Lower(s) == s <==> NoUpper(s)
  {
    LowerAt(s);
    if NoUpper(s) {
      assert forall i :: 0 <= i < |s| ==> Lower(s)[i] == s[i];
    } else {
      var i :| 0 <= i < |s| && IsUpper(s[i]);
      assert Lower(s)[i] != s[i];
    }
  }

  /** Lower-casing distributes over concatenation. */
  lemma LowerAppend(a: String, b: String)
    ensures Lower(a + b) == Lower(a) + Lower(b)
  {
    LowerAt(a + b);
    LowerAt(a);
    LowerAt(b);
    assert forall i :: 0 <= i < |a + b| ==> Lower(a + b)[i] == (Lower(a) + Lower(b))[i];
  }

  /** `str.lstrip()`: the longest suffix of `s` that does not start with whitespace. */
  function TrimStart(s: String): (r: String)
    ensures |r| <= |s|
  {
    if s != [] && IsSpace(s[0]) then TrimStart(s[1..]) else s
  }

  /** `TrimStart` cuts only whitespace, and all of it up to the first other character. */
  lemma {:induction false} TrimStartSpec(s: String)
    ensures TrimStart(s) == s[|s| - |TrimStart(s)|..]
    ensures forall i :: 0 <= i < |s| - |TrimStart(s)| ==> IsSpace(s[i])
    ensures TrimStart(s) == [] || !IsSpace(TrimStart(s)[0])
  {
    if s != [] && IsSpace(s[0]) {
      TrimStartSpec(s[1..]);
    }
  }

  /** Leading whitespace removal takes all of a whitespace-only string. */
  lemma {:induction false} TrimStartAllSpace(p: String)
    requires AllSpace(p)
    ensures TrimStart(p) == []
  {
    if p != [] {
      TrimStartAllSpace(p[1..]);
    }
  }

  /** `str.rstrip()`: the longest prefix of `s` that does not end with whitespace. */
  function TrimEnd(s: String): (r: String)
    ensures |r| <= |s|
  {
    if s != [] && IsSpace(s[|s| - 1]) then TrimEnd(s[..|s| - 1]) else s
  }

  /** `TrimEnd` cuts only whitespace, and all of it back to the last other character. */
  lemma {:induction false} TrimEndSpec(s: String)
    ensures TrimEnd(s) == s[..|TrimEnd(s)|]
    ensures forall i :: |TrimEnd(s)| <= i < |s| ==> IsSpace(s[i])
    ensures TrimEnd(s) == [] || !IsSpace(TrimEnd(s)[|TrimEnd(s)| - 1])
  {
    if s != [] && IsSpace(s[|s| - 1]) {
      TrimEndSpec(s[..|s| - 1]);
    }
  }

  /** `str.strip()`: both ends trimmed. */
  function Strip(s: String): (r: String)
    ensures |r| <= |s|
  {
    TrimStart(TrimEnd(s))
  }

  /** Neither end of `s` is whitespace. */
  predicate Trimmed(s: String) {
    s == [] || (!IsSpace(s[0]) && !IsSpace(s[|s| - 1]))
  }

  /** The stripped string is a slice of `s` that is trimmed, and only
      whitespace was cut away on either side. */
  lemma StripSlice(s: String)
    ensures Trimmed(Strip(s))
    ensures |Strip(s)| <= |TrimEnd(s)| && Strip(s) == s[|TrimEnd(s)| - |Strip(s)|..|TrimEnd(s)|]
    ensures forall k :: 0 <= k < |TrimEnd(s)| - |Strip(s)| ==> IsSpace(s[k])
    ensures forall k :: |TrimEnd(s)| <= k < |s| ==> IsSpace(s[k])
  {
    var e := TrimEnd(s);
    var r := TrimStart(e);
    TrimEndSpec(s);
    TrimStartSpec(e);
    assert r == e[|e| - |r|..];
    assert e == s[..|e|];
    assert s[..|e|][|e| - |r|..] == s[|e| - |r|..|e|];
    if r != [] {
      assert r[|r| - 1] == e[|e| - 1];
    }
    forall k | 0 <= k < |e| - |r|
      ensures IsSpace(s[k])
    {
      assert IsSpace(e[k]) && e[k] == s[k];
    }
  }

  /** Stripping changes a string exactly when one of its ends is whitespace. */
  lemma {:induction false} StripFixedPoint(s: String)
    ensures Strip(s) == s <==> Trimmed(s)
  {
    if Trimmed(s) {
      assert TrimEnd(s) == s;
      assert TrimStart(s) == s;
    } else {
      StripSlice(s);
    }
  }

  /** `strip()` is idempotent. */
  lemma StripIdempotent(s: String)
    ensures Strip(Strip(s)) == Strip(s)
  {
    StripSlice(s);
    StripFixedPoint(Strip(s));
  }

  /** Leading whitespace removal stops at a non-space character, so it
      leaves everything from there on untouched. */
  lemma {:induction false} TrimStartAppend(p: String, d: String)
    requires d != [] && !IsSpace(d[0])
    ensures TrimStart(p + d) == TrimStart(p) + d
  {
    if p == [] {
      assert p + d == d;
    } else if IsSpace(p[0]) {
      assert (p + d)[1..] == p[1..] + d;
      TrimStartAppend(p[1..], d);
    } else {
      assert (p + d)[0] == p[0];
    }
  }

  /** A whitespace run after a part that ends with non-space is all that
      trailing whitespace removal takes away. */
  lemma {:induction false} TrimEndAppend(d: String, q: String)
    requires d != [] && !IsSpace(d[|d| - 1]) && AllSpace(q)
    ensures TrimEnd(d + q) == d
  {
    if q == [] {
      assert d + q == d;
    } else {
      var s := d + q;
      assert s[|s| - 1] == q[|q| - 1];
      assert s[..|s| - 1] == d + q[..|q| - 1];
      TrimEndAppend(d, q[..|q| - 1]);
    }
  }

  /** `s.endswith(suffix)`. */
  predicate EndsWith(s: String, suffix: String) {
    |suffix| <= |s| && s[|s| - |suffix|..] == suffix
  }

  /** Glues `parts` back together with `sep` between consecutive parts;
      the inverse of `Split`. */
  function Join(parts: seq<String>, sep: char): String
  {
    if parts == [] then []
    else if |parts| == 1 then parts[0]
    else parts[0] + [sep] + Join(parts[1..], sep)
  }

  /** `s.split(sep)` for a one-character separator: the pieces between
      separators, empty pieces kept, so there is always at least one. */
  function Split(s: String, sep: char): (r: seq<String>)
    ensures |r| >= 1
  {
    if s == [] then [[]]
    else
      var rest := Split(s[1..], sep);
      if s[0] == sep then [[]] + rest
      else [[s[0]] + rest[0]] + rest[1..]
  }

  /** No piece holds the separator, and joining the pieces gives `s` back.
      The two halves are proved by separate inductions, `SplitPiecesFree`
      and `SplitJoined`, which keeps each proof small enough for the solver
      to find reliably. */
  lemma SplitJoinsBack(s: String, sep: char)
    ensures forall k :: 0 <= k < |Split(s, sep)| ==> sep !in Split(s, sep)[k]
    ensures Join(Split(s, sep), sep) == s
  {
    SplitPiecesFree(s, sep);
    SplitJoined(s, sep);
  }

  lemma {:induction false} SplitPiecesFree(s: String, sep: char)
    ensures forall k :: 0 <= k < |Split(s, sep)| ==> sep !in Split(s, sep)[k]
  {
    if s != [] {
      var rest := Split(s[1..], sep);
      SplitPiecesFree(s[1..], sep);
      var r := Split(s, sep);
      if s[0] == sep {
        assert r == [[]] + rest;
        assert forall k :: 1 <= k < |r| ==> r[k] == rest[k - 1];
      } else {
        assert r == [[s[0]] + rest[0]] + rest[1..];
        assert forall k :: 1 <= k < |r| ==> r[k] == rest[k];
      }
    }
  }

  lemma {:induction false} SplitJoined(s: String, sep: char)
    ensures Join(Split(s, sep), sep) == s
  {
    if s != [] {
      var rest := Split(s[1..], sep);
      SplitJoined(s[1..], sep);
      if s[0] == sep {
        assert ([[]] + rest)[1..] == rest;
        assert s == [sep] + s[1..];
      } else {
        var r := [[s[0]] + rest[0]] + rest[1..];
        assert r[1..] == rest[1..];
        if |rest| > 1 {
          assert Join(r, sep) == [s[0]] + rest[0] + [sep] + Join(rest[1..], sep);
        }
        assert s == [s[0]] + s[1..];
      }
    }
  }

  /** Splitting a piece free of `sep` in front of more text only extends the first piece. */
  lemma {:induction false} SplitPrefix(a: String, rest: String, sep: char)
    requires sep !in a
    ensures Split(a + rest, sep) == [a + Split(rest, sep)[0]] + Split(rest, sep)[1..]
  {
    var t := Split(rest, sep);
    if a == [] {
      assert a + rest == rest && a + t[0] == t[0];
      assert t == [t[0]] + t[1..];
    } else {
      assert (a + rest)[0] == a[0] && (a + rest)[1..] == a[1..] + rest;
      SplitPrefix(a[1..], rest, sep);
      var inner := Split(a[1..] + rest, sep);
      assert inner[0] == a[1..] + t[0] && inner[1..] == t[1..];
      assert [a[0]] + (a[1..] + t[0]) == a + t[0];
    }
  }

  /** Splitting what `Join` produced gives the parts back, when no part holds `sep`. */
  lemma {:induction false} SplitJoin(parts: seq<String>, sep: char)
    requires |parts| >= 1
    requires forall k :: 0 <= k < |parts| ==> sep !in parts[k]
    ensures Split(Join(parts, sep), sep) == parts
  {
    if |parts| == 1 {
      SplitPrefix(parts[0], [], sep);
      assert parts[0] + [] == parts[0];
    } else {
      var tail := Join(parts[1..], sep);
      SplitJoin(parts[1..], sep);
      assert ([sep] + tail)[1..] == tail;
      assert Split([sep] + tail, sep) == [[]] + parts[1..];
      assert parts[0] + [sep] + tail == parts[0] + ([sep] + tail);
      SplitPrefix(parts[0], [sep] + tail, sep);
      assert parts[0] + [] == parts[0];
      assert parts == [parts[0]] + parts[1..];
    }
  }
}
