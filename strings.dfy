/** Character-level string operations of the Rust standard library that the
    translator relies on, `str::replace` and `str::trim`, with the facts about
    them that the rest of the model uses. `Split` is not one of them: the
    translator never splits a string, and the proofs use `Split` only to read
    the parameters back out of a URL or a form body. */
module Strings {

  /** `str::replace(pat, rep)`: scans left to right and replaces every
      non-overlapping occurrence of `pat` by `rep`. */
  function Replace(s: string, pat: string, rep: string): string
    requires |pat| > 0
    decreases |s|
  {
    if |s| < |pat| then s
    else if s[..|pat|] == pat then rep + Replace(s[|pat|..], pat, rep)
    else [s[0]] + Replace(s[1..], pat, rep)
  }

  /** Replaces every occurrence of the single character `c` by `rep`. */
  function MapChar(s: string, c: char, rep: string): string
  {
    if s == [] then [] else (if s[0] == c then rep else [s[0]]) + MapChar(s[1..], c, rep)
  }

  /** Keeps the characters of `s` that are not in `drop`, in order. */
  function StripChars(s: string, drop: set<char>): string
  {
    if s == [] then [] else (if s[0] in drop then [] else [s[0]]) + StripChars(s[1..], drop)
  }

  /** A one-character pattern is replaced character by character. */
  lemma {:induction false} ReplaceOneChar(s: string, c: char, rep: string)
    ensures Replace(s, [c], rep) == MapChar(s, c, rep)
  {
    if s != [] {
      ReplaceOneChar(s[1..], c, rep);
    }
  }

  lemma {:induction false} MapCharAppend(a: string, b: string, c: char, rep: string)
    ensures MapChar(a + b, c, rep) == MapChar(a, c, rep) + MapChar(b, c, rep)
  {
    if a != [] {
      assert (a + b)[1..] == a[1..] + b;
      MapCharAppend(a[1..], b, c, rep);
    } else {
      assert a + b == b;
    }
  }

  /** After replacing `c` by a text without `c`, no `c` is left. */
  lemma {:induction false} MapCharRemoves(s: string, c: char, rep: string)
    requires c !in rep
    ensures c !in MapChar(s, c, rep)
  {
    if s != [] {
      MapCharRemoves(s[1..], c, rep);
    }
  }

  /** Characters other than `c` that `rep` does not bring in are present
      after the replacement exactly when they were present before. */
  lemma {:induction false} MapCharKeeps(s: string, c: char, rep: string, d: char)
    requires d != c && d !in rep
    ensures d in MapChar(s, c, rep) <==> d in s
  {
    if s != [] {
      MapCharKeeps(s[1..], c, rep, d);
      assert s == [s[0]] + s[1..];
    }
  }

  /** Replacing a character that does not occur changes nothing. */
  lemma {:induction false} MapCharAbsent(s: string, c: char, rep: string)
    requires c !in s
    ensures MapChar(s, c, rep) == s
  {
    if s != [] {
      MapCharAbsent(s[1..], c, rep);
      assert s == [s[0]] + s[1..];
    }
  }

  lemma MapCharOne(x: char, c: char, rep: string)
    ensures MapChar([x], c, rep) == if x == c then rep else [x]
  {
    assert [x][1..] == [];
  }

  /** Replacing a character by nothing strips it. */
  lemma {:induction false} MapCharDeletes(s: string, c: char)
    ensures MapChar(s, c, "") == StripChars(s, {c})
  {
    if s != [] {
      MapCharDeletes(s[1..], c);
    }
  }

  /** Removing one more character after a strip is a strip of the larger set. */
  lemma {:induction false} StripThenRemove(s: string, drop: set<char>, c: char)
    ensures MapChar(StripChars(s, drop), c, "") == StripChars(s, drop + {c})
  {
    if s != [] {
      var head := if s[0] in drop then [] else [s[0]];
      MapCharAppend(head, StripChars(s[1..], drop), c, "");
      StripThenRemove(s[1..], drop, c);
    }
  }

  lemma {:induction false} StripCharsAppend(a: string, b: string, drop: set<char>)
    ensures StripChars(a + b, drop) == StripChars(a, drop) + StripChars(b, drop)
  {
    if a != [] {
      assert (a + b)[1..] == a[1..] + b;
      StripCharsAppend(a[1..], b, drop);
    } else {
      assert a + b == b;
    }
  }

  /** A strip leaves none of the dropped characters and only characters of
      its input. */
  lemma {:induction false} StripCharsResult(s: string, drop: set<char>)
    ensures forall c :: c in StripChars(s, drop) ==> c !in drop && c in s
  {
    if s != [] {
      StripCharsResult(s[1..], drop);
    }
  }

  /** A strip changes nothing exactly when no dropped character occurs. */
  lemma {:induction false} StripCharsUnchanged(s: string, drop: set<char>)
    ensures StripChars(s, drop) == s <==> forall i :: 0 <= i < |s| ==> s[i] !in drop
  {
    if s != [] {
      StripCharsUnchanged(s[1..], drop);
      StripCharsResult(s, drop);
      if s[0] in drop {
        StripCharsShorter(s[1..], drop);
      }
    }
  }

  lemma {:induction false} StripCharsShorter(s: string, drop: set<char>)
    ensures |StripChars(s, drop)| <= |s|
  {
    if s != [] {
      StripCharsShorter(s[1..], drop);
    }
  }

  /** Stripping twice is stripping once. */
  lemma StripCharsIdempotent(s: string, drop: set<char>)
    ensures StripChars(StripChars(s, drop), drop) == StripChars(s, drop)
  {
    var r := StripChars(s, drop);
    StripCharsResult(s, drop);
    assert forall i :: 0 <= i < |r| ==> r[i] in r;
    StripCharsUnchanged(r, drop);
  }

  /** `char::is_whitespace`: the Unicode White_Space property. */
  predicate IsWhitespace(c: char)
  {
    ('\t' <= c <= '\r') || c == ' ' || c == '\U{0085}' || c == '\U{00A0}' || c == '\U{1680}'
    || ('\U{2000}' <= c <= '\U{200A}') || c == '\U{2028}' || c == '\U{2029}' || c == '\U{202F}'
    || c == '\U{205F}' || c == '\U{3000}'
  }

  function TrimStart(s: string): string
    decreases |s|
  {
    if s != [] && IsWhitespace(s[0]) then TrimStart(s[1..]) else s
  }

  function TrimEnd(s: string): string
    decreases |s|
  {
    if s != [] && IsWhitespace(s[|s| - 1]) then TrimEnd(s[..|s| - 1]) else s
  }

  /** `str::trim`: drops leading and trailing white space. */
  function Trim(s: string): string
  {
    TrimEnd(TrimStart(s))
  }

  predicate Trimmed(s: string)
  {
    s == [] || (!IsWhitespace(s[0]) && !IsWhitespace(s[|s| - 1]))
  }

  lemma {:induction false} TrimStartBounds(s: string) returns (i: nat)
    ensures i <= |s| && TrimStart(s) == s[i..]
    ensures forall k :: 0 <= k < i ==> IsWhitespace(s[k])
    ensures i < |s| ==> !IsWhitespace(s[i])
  {
    if s != [] && IsWhitespace(s[0]) {
      var j := TrimStartBounds(s[1..]);
      i := j + 1;
      assert s[1..][j..] == s[i..];
    } else {
      i := 0;
    }
  }

  lemma {:induction false} TrimEndBounds(s: string) returns (j: nat)
    ensures j <= |s| && TrimEnd(s) == s[..j]
    ensures forall k :: j <= k < |s| ==> IsWhitespace(s[k])
    ensures j > 0 ==> !IsWhitespace(s[j - 1])
  {
    if s != [] && IsWhitespace(s[|s| - 1]) {
      j := TrimEndBounds(s[..|s| - 1]);
      assert s[..|s| - 1][..j] == s[..j];
    } else {
      j := |s|;
    }
  }

  /** `Trim(s)` is the slice of `s` left when its white space on both ends is
      cut off: it starts and ends with a non-space character. */
  lemma TrimBounds(s: string) returns (i: nat, j: nat)
    ensures i <= j <= |s| && Trim(s) == s[i..j]
    ensures forall k :: 0 <= k < i ==> IsWhitespace(s[k])
    ensures forall k :: j <= k < |s| ==> IsWhitespace(s[k])
    ensures Trimmed(Trim(s))
  {
    i := TrimStartBounds(s);
    var e := TrimEndBounds(s[i..]);
    j := i + e;
    assert s[i..][..e] == s[i..j];
  }

  /** Every character of `Trim(s)` is a character of `s`. */
  lemma TrimSubset(s: string)
    ensures forall c :: c in Trim(s) ==> c in s
  {
    var i, j := TrimBounds(s);
    forall c | c in Trim(s) ensures c in s {
      var k :| 0 <= k < |s[i..j]| && s[i..j][k] == c;
      assert s[i + k] == c;
    }
  }

  /** The fields of `s` between occurrences of `sep`, as `str::split` would give
      them. A reference for reading parameters back; the translator never
      calls it. */
  function Split(s: string, sep: char): (r: seq<string>)
    ensures |r| >= 1
  {
    if s == [] then [[]]
    else if s[0] == sep then [[]] + Split(s[1..], sep)
    else var rest := Split(s[1..], sep); [[s[0]] + rest[0]] + rest[1..]
  }

  /** The fields, each followed by `sep`, then `last`: how `format!`
      strings such as `a={}&b={}&c` lay out their parameters. */
  function JoinWith(fields: seq<string>, last: string, sep: char): string
  {
    if fields == [] then last else fields[0] + [sep] + JoinWith(fields[1..], last, sep)
  }

  /** A field without the separator is the first piece of the split. */
  lemma {:induction false} SplitField(a: string, sep: char, b: string)
    requires sep !in a
    ensures Split(a + [sep] + b, sep) == [a] + Split(b, sep)
  {
    if a != [] {
      assert (a + [sep] + b)[1..] == a[1..] + [sep] + b;
      SplitField(a[1..], sep, b);
      assert a == [a[0]] + a[1..];
    } else {
      assert (a + [sep] + b)[1..] == b;
    }
  }

  lemma {:induction false} SplitWhole(a: string, sep: char)
    requires sep !in a
    ensures Split(a, sep) == [a]
  {
    if a != [] {
      SplitWhole(a[1..], sep);
      assert a == [a[0]] + a[1..];
    }
  }

  /** Splitting undoes joining when no field holds the separator. */
  lemma {:induction false} SplitJoinWith(fields: seq<string>, last: string, sep: char)
    requires forall k :: 0 <= k < |fields| ==> sep !in fields[k]
    requires sep !in last
    ensures Split(JoinWith(fields, last, sep), sep) == fields + [last]
  {
    if fields == [] {
      SplitWhole(last, sep);
    } else {
      SplitJoinWith(fields[1..], last, sep);
      SplitField(fields[0], sep, JoinWith(fields[1..], last, sep));
      assert fields == [fields[0]] + fields[1..];
    }
  }

  /** Decimal digits of a natural number, most significant first. */
  function NatToString(n: nat): (r: string)
    ensures |r| >= 1 && forall k :: 0 <= k < |r| ==> '0' <= r[k] <= '9'
  {
    if n < 10 then [Digit(n)] else NatToString(n / 10) + [Digit(n % 10)]
  }

  function Digit(d: nat): (c: char)
    requires d < 10
    ensures '0' <= c <= '9'
  {
    ['0', '1', '2', '3', '4', '5', '6', '7', '8', '9'][d]
  }
}
