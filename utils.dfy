/** The text sanitisers and language-code tables of the translator's `utils`
    module: the filter `get_text` applies to every sampled text,
    `convert_language`, `fliter_long` and `fliter_short`. */
module Utils {
  import opened Strings
  import opened Errors

  // ---------------------------------------------------------------------
  // The filter closure of `get_text`
  // ---------------------------------------------------------------------

  /** `strip_prefix(c)`, keeping the text when it does not start with `c`. */
  function StripLeading(s: string, c: char): string
  {
    if s != [] && s[0] == c then s[1..] else s
  }

  /** What `get_text` does to a sampled text before it is translated: trim,
      drop one leading `.` and then one leading `,`, join `-\n`
      hyphenations, percent-encode `%`, `&` and `#`, turn the remaining line
      breaks into spaces and trim again. */
  function Filter(raw: string): string
  {
    var lead := StripLeading(StripLeading(Trim(raw), '.'), ',');
    var joined := Replace(lead, "-\n", "");
    var encoded := Replace(Replace(Replace(joined, "%", "%25"), "&", "%26"), "#", "%23");
    Trim(Replace(encoded, "\n", " "))
  }

  /** The percent-encoding (section 2.1 of RFC 3986) of one character, as the
      filter applies it. */
  function EscapeChar(c: char): string
  {
    if c == '%' then "%25" else if c == '&' then "%26" else if c == '#' then "%23" else [c]
  }

  function Escape(s: string): string
  {
    if s == [] then [] else EscapeChar(s[0]) + Escape(s[1..])
  }

  /** Percent-decoding of the three triplets the filter produces. */
  function Unescape(s: string): string
  {
    if s == [] then []
    else if |s| >= 3 && s[0] == '%' && s[1] == '2' && s[2] == '5' then "%" + Unescape(s[3..])
    else if |s| >= 3 && s[0] == '%' && s[1] == '2' && s[2] == '6' then "&" + Unescape(s[3..])
    else if |s| >= 3 && s[0] == '%' && s[1] == '2' && s[2] == '3' then "#" + Unescape(s[3..])
    else [s[0]] + Unescape(s[1..])
  }

  /** The sampled text as a single trimmed line, before percent-encoding:
      the reference the filter's output decodes to. */
  function JoinedText(raw: string): string
  {
    var lead := StripLeading(StripLeading(Trim(raw), '.'), ',');
    Trim(Replace(Replace(lead, "-\n", ""), "\n", " "))
  }

  /** Decoding undoes the encoding. */
  lemma {:induction false} UnescapeEscape(s: string)
    ensures Unescape(Escape(s)) == s
  {
    if s != [] {
      UnescapeEscape(s[1..]);
      assert Escape(s) == EscapeChar(s[0]) + Escape(s[1..]);
      if s[0] in {'%', '&', '#'} {
        assert (EscapeChar(s[0]) + Escape(s[1..]))[3..] == Escape(s[1..]);
      } else {
        assert (EscapeChar(s[0]) + Escape(s[1..]))[1..] == Escape(s[1..]);
      }
    }
  }

  lemma {:induction false} EscapeAppend(a: string, b: string)
    ensures Escape(a + b) == Escape(a) + Escape(b)
  {
    if a != [] {
      assert (a + b)[1..] == a[1..] + b;
      EscapeAppend(a[1..], b);
    } else {
      assert a + b == b;
    }
  }

  /** The three `replace` calls of the filter encode character by character:
      the `%25` written first is not touched by the later two. */
  lemma {:induction false} EscapeByReplace(s: string)
    ensures Replace(Replace(Replace(s, "%", "%25"), "&", "%26"), "#", "%23") == Escape(s)
  {
    ReplaceOneChar(s, '%', "%25");
    ReplaceOneChar(MapChar(s, '%', "%25"), '&', "%26");
    ReplaceOneChar(MapChar(MapChar(s, '%', "%25"), '&', "%26"), '#', "%23");
    EscapeByMapChar(s);
  }

  lemma {:induction false} EscapeByMapChar(s: string)
    ensures MapChar(MapChar(MapChar(s, '%', "%25"), '&', "%26"), '#', "%23") == Escape(s)
  {
    if s != [] {
      var h := if s[0] == '%' then "%25" else [s[0]];
      var h2 := MapChar(h, '&', "%26");
      MapCharAppend(h, MapChar(s[1..], '%', "%25"), '&', "%26");
      MapCharAppend(h2, MapChar(MapChar(s[1..], '%', "%25"), '&', "%26"), '#', "%23");
      EscapeByMapChar(s[1..]);
      EscapeCharByMapChar(s[0]);
    }
  }

  lemma EscapeCharByMapChar(c: char)
    ensures MapChar(MapChar(if c == '%' then "%25" else [c], '&', "%26"), '#', "%23") == EscapeChar(c)
  {
    if c == '%' {
      MapCharAbsent("%25", '&', "%26");
      MapCharAbsent("%25", '#', "%23");
    } else if c == '&' {
      MapCharOne(c, '&', "%26");
      MapCharAbsent("%26", '#', "%23");
    } else {
      MapCharOne(c, '&', "%26");
      MapCharOne(c, '#', "%23");
    }
  }

  /** Encoding and turning line breaks into spaces commute. */
  lemma {:induction false} EscapeNewlines(s: string)
    ensures MapChar(Escape(s), '\n', " ") == Escape(MapChar(s, '\n', " "))
  {
    if s != [] {
      var h := if s[0] == '\n' then " " else [s[0]];
      MapCharAppend(EscapeChar(s[0]), Escape(s[1..]), '\n', " ");
      EscapeAppend(h, MapChar(s[1..], '\n', " "));
      EscapeNewlines(s[1..]);
      if s[0] == '\n' {
        MapCharOne(s[0], '\n', " ");
        assert Escape(h) == " ";
      } else if s[0] in {'%', '&', '#'} {
        MapCharAbsent(EscapeChar(s[0]), '\n', " ");
        assert Escape(h) == EscapeChar(s[0]) + Escape([]);
      } else {
        MapCharOne(s[0], '\n', " ");
        assert Escape(h) == EscapeChar(s[0]) + Escape([]);
      }
    }
  }

  lemma {:induction false} EscapeTrimStart(s: string)
    ensures TrimStart(Escape(s)) == Escape(TrimStart(s))
  {
    if s != [] {
      assert Escape(s) == EscapeChar(s[0]) + Escape(s[1..]);
      if IsWhitespace(s[0]) {
        assert Escape(s)[1..] == Escape(s[1..]);
        EscapeTrimStart(s[1..]);
      } else {
        assert Escape(s)[0] == EscapeChar(s[0])[0];
      }
    }
  }

  lemma {:induction false} EscapeTrimEnd(s: string)
    ensures TrimEnd(Escape(s)) == Escape(TrimEnd(s))
    decreases |s|
  {
    if s != [] {
      var a, c := s[..|s| - 1], s[|s| - 1];
      assert s == a + [c];
      EscapeAppend(a, [c]);
      assert Escape([c]) == EscapeChar(c);
      if IsWhitespace(c) {
        assert Escape(s)[..|Escape(s)| - 1] == Escape(a);
        EscapeTrimEnd(a);
      } else {
        assert Escape(s)[|Escape(s)| - 1] == EscapeChar(c)[|EscapeChar(c)| - 1];
      }
    }
  }

  /** No raw `&`, `#` or line break is in an encoded text that had no line
      break. */
  lemma {:induction false} EscapeClean(s: string)
    ensures '&' !in Escape(s) && '#' !in Escape(s)
    ensures '\n' in Escape(s) <==> '\n' in s
  {
    if s != [] {
      EscapeClean(s[1..]);
      assert s == [s[0]] + s[1..];
    }
  }

  /** The filter's output is the percent-encoding of the joined text. */
  lemma FilterIsEscapedJoin(raw: string)
    ensures Filter(raw) == Escape(JoinedText(raw))
  {
    var lead := StripLeading(StripLeading(Trim(raw), '.'), ',');
    var joined := Replace(lead, "-\n", "");
    EscapeByReplace(joined);
    ReplaceOneChar(Escape(joined), '\n', " ");
    ReplaceOneChar(joined, '\n', " ");
    EscapeNewlines(joined);
    var spaced := MapChar(joined, '\n', " ");
    EscapeTrimStart(spaced);
    EscapeTrimEnd(TrimStart(spaced));
  }

  /** Decoding the filter's output gives back the sampled text as one trimmed
      line: the encoding loses nothing. */
  lemma FilterDecodes(raw: string)
    ensures Unescape(Filter(raw)) == JoinedText(raw)
  {
    FilterIsEscapedJoin(raw);
    UnescapeEscape(JoinedText(raw));
  }

  /** The joined text is trimmed and holds no line break. */
  lemma JoinedTextClean(raw: string)
    ensures '\n' !in JoinedText(raw) && Trimmed(JoinedText(raw))
  {
    var lead := StripLeading(StripLeading(Trim(raw), '.'), ',');
    var joined := Replace(lead, "-\n", "");
    ReplaceOneChar(joined, '\n', " ");
    MapCharRemoves(joined, '\n', " ");
    TrimSubset(MapChar(joined, '\n', " "));
    var _, _ := TrimBounds(MapChar(joined, '\n', " "));
  }

  lemma {:induction false} EscapeTrimmed(s: string)
    requires Trimmed(s)
    ensures Trimmed(Escape(s))
  {
    EscapeTrimStart(s);
    EscapeTrimEnd(s);
    var i, j := TrimBounds(s);
    var i2, j2 := TrimBounds(Escape(s));
    assert s == s[i..j];
  }

  /** The filter's output is trimmed and holds no line break and no raw `&`
      or `#`. */
  lemma FilterClean(raw: string)
    ensures Trimmed(Filter(raw))
    ensures '\n' !in Filter(raw) && '&' !in Filter(raw) && '#' !in Filter(raw)
  {
    FilterIsEscapedJoin(raw);
    JoinedTextClean(raw);
    EscapeClean(JoinedText(raw));
    EscapeTrimmed(JoinedText(raw));
  }

  // ---------------------------------------------------------------------
  // convert_language
  // ---------------------------------------------------------------------

  /** The Google table; every other name silently becomes `en`. */
  function GoogleCode(name: string): string
  {
    if name == "English" then "en"
    else if name == "Chinese" then "zh-CN"
    else if name == "Japanese" then "ja"
    else if name == "French" then "fr"
    else if name == "German" then "de"
    else "en"
  }

  /** The DeepL table; every other name silently becomes `EN-US`. */
  function DeepLCode(name: string): string
  {
    if name == "English" then "EN"
    else if name == "Chinese" then "ZH"
    else if name == "Japanese" then "JA"
    else if name == "French" then "FR"
    else if name == "German" then "DE"
    else if name == "English (American)" then "EN-US"
    else if name == "English (British)" then "EN-GB"
    else if name == "Chinese (simplified)" then "ZH"
    else "EN-US"
  }

  /** `convert_language(sl, tl, api)`: the table of `api` applied to both
      names; any `api` other than `google` and `deepl` panics. */
  function ConvertLanguage(sl: string, tl: string, api: string): (r: Outcome<(string, string)>)
    ensures r.Panicked? <==> api != "google" && api != "deepl"
    ensures api == "google" ==> r == Returned((GoogleCode(sl), GoogleCode(tl)))
    ensures api == "deepl" ==> r == Returned((DeepLCode(sl), DeepLCode(tl)))
  {
    if api == "google" then Returned((GoogleCode(sl), GoogleCode(tl)))
    else if api == "deepl" then Returned((DeepLCode(sl), DeepLCode(tl)))
    else Panicked("Unsupport api provider!")
  }

  /** The language each Google code stands for. */
  function GoogleName(code: string): string
  {
    if code == "zh-CN" then "Chinese"
    else if code == "ja" then "Japanese"
    else if code == "fr" then "French"
    else if code == "de" then "German"
    else "English"
  }

  /** The Google table is one-to-one on its five names, and a name outside
      it is read as English. */
  lemma GoogleTable(name: string)
    ensures GoogleCode(name) in {"en", "zh-CN", "ja", "fr", "de"}
    ensures name in {"English", "Chinese", "Japanese", "French", "German"} ==> GoogleName(GoogleCode(name)) == name
    ensures GoogleCode(name) == "en" <==> name !in {"Chinese", "Japanese", "French", "German"}
  {
  }

  /** The DeepL codes: `ZH` for both spellings of Chinese, `EN-US` for
      American English and for every name outside the table. */
  lemma DeepLTable(name: string)
    ensures DeepLCode(name) in {"EN", "ZH", "JA", "FR", "DE", "EN-US", "EN-GB"}
    ensures DeepLCode(name) == "ZH" <==> name == "Chinese" || name == "Chinese (simplified)"
    ensures DeepLCode(name) == "EN-US" <==>
      name !in {"English", "Chinese", "Japanese", "French", "German", "English (British)", "Chinese (simplified)"}
  {
  }

  /** Codes are plain tokens: they cannot break a form body or a query. */
  lemma CodesArePlain(name: string)
    ensures '&' !in GoogleCode(name) && ' ' !in GoogleCode(name)
    ensures '&' !in DeepLCode(name) && ' ' !in DeepLCode(name)
  {
  }

  /** `convert_language` maps the capitalised name `Chinese (Simplified)`, the
      command line's default target, to the default code of either table,
      because the name is in neither. */
  lemma DefaultTargetUnmapped()
    ensures ConvertLanguage("English", "Chinese (Simplified)", "google") == Returned(("en", "en"))
    ensures ConvertLanguage("English", "Chinese (Simplified)", "deepl") == Returned(("EN", "EN-US"))
    ensures ConvertLanguage("English", "Chinese", "deeplpro").Panicked?
  {
  }

  // ---------------------------------------------------------------------
  // fliter_long and fliter_short
  // ---------------------------------------------------------------------

  /** `fliter_long`: every `al.` becomes `al`. */
  function FliterLong(input: string): string
  {
    Replace(input, "al.", "al")
  }

  /** The `.` at `i` closes an `al.`. */
  predicate AlDotAt(s: string, i: int)
  {
    2 <= i < |s| && s[i - 2] == 'a' && s[i - 1] == 'l' && s[i] == '.'
  }

  /** The characters of `s` from `i` on, without the dots that close an `al.`. */
  function DropAlDotsFrom(s: string, i: nat): string
    decreases |s| - i
  {
    if i >= |s| then [] else (if AlDotAt(s, i) then [] else [s[i]]) + DropAlDotsFrom(s, i + 1)
  }

  /** Where the left-to-right scan of `Replace` may be: not on the dot of an
      `al.` (that dot is consumed with its match) nor on the `l` of one. */
  predicate ScanPoint(s: string, i: nat)
  {
    !AlDotAt(s, i) && !AlDotAt(s, i + 1)
  }

  lemma {:induction false} FliterLongFrom(s: string, i: nat)
    requires i <= |s| && ScanPoint(s, i)
    ensures Replace(s[i..], "al.", "al") == DropAlDotsFrom(s, i)
    decreases |s| - i
  {
    var t := s[i..];
    if |t| < 3 {
      DropAlDotsShort(s, i);
    } else if t[..3] == "al." {
      assert t[3..] == s[i + 3..];
      DropAlDotsMatch(s, i);
      FliterLongFrom(s, i + 3);
    } else {
      assert t[1..] == s[i + 1..];
      assert !AlDotAt(s, i + 2) by {
        assert t[..3] == [s[i], s[i + 1], s[i + 2]];
      }
      FliterLongFrom(s, i + 1);
    }
  }

  /** Fewer than three characters from a scan point hold no `al.`. */
  lemma DropAlDotsShort(s: string, i: nat)
    requires i <= |s| < i + 3 && ScanPoint(s, i)
    ensures DropAlDotsFrom(s, i) == s[i..]
  {
    if i + 1 < |s| {
      assert DropAlDotsFrom(s, i + 2) == [];
      assert s[i..] == [s[i], s[i + 1]];
    } else if i < |s| {
      assert s[i..] == [s[i]];
    }
  }

  /** At a scan point where `al.` starts, its dot is dropped and the scan
      goes on after it. */
  lemma DropAlDotsMatch(s: string, i: nat)
    requires i + 3 <= |s| && s[i..i + 3] == "al." && ScanPoint(s, i)
    ensures DropAlDotsFrom(s, i) == "al" + DropAlDotsFrom(s, i + 3)
    ensures ScanPoint(s, i + 3)
  {
    assert s[i] == s[i..i + 3][0] && s[i + 1] == s[i..i + 3][1] && s[i + 2] == s[i..i + 3][2];
    assert AlDotAt(s, i + 2);
    assert DropAlDotsFrom(s, i + 2) == DropAlDotsFrom(s, i + 3);
    assert DropAlDotsFrom(s, i + 1) == [s[i + 1]] + DropAlDotsFrom(s, i + 2);
    assert DropAlDotsFrom(s, i) == [s[i]] + DropAlDotsFrom(s, i + 1);
    assert [s[i]] + ([s[i + 1]] + DropAlDotsFrom(s, i + 3)) == "al" + DropAlDotsFrom(s, i + 3);
  }

  /** `fliter_long` removes exactly the dots that close an `al.`, keeping
      every other character in order. */
  lemma FliterLongDropsAlDots(s: string)
    ensures FliterLong(s) == DropAlDotsFrom(s, 0)
  {
    FliterLongFrom(s, 0);
  }

  lemma {:induction false} DropAlDotsNone(s: string, i: nat)
    requires i <= |s|
    ensures DropAlDotsFrom(s, i) == s[i..] <==> forall k :: i <= k < |s| ==> !AlDotAt(s, k)
    decreases |s| - i
  {
    if i < |s| {
      DropAlDotsNone(s, i + 1);
      assert s[i..] == [s[i]] + s[i + 1..];
      if AlDotAt(s, i) {
        DropAlDotsShorter(s, i + 1);
        assert |DropAlDotsFrom(s, i)| < |s[i..]|;
      } else {
        assert DropAlDotsFrom(s, i) == [s[i]] + DropAlDotsFrom(s, i + 1);
        SeqConsEq(s[i], DropAlDotsFrom(s, i + 1), s[i + 1..]);
      }
    }
  }

  lemma SeqConsEq(x: char, a: string, b: string)
    ensures [x] + a == [x] + b <==> a == b
  {
    if [x] + a == [x] + b {
      assert a == ([x] + a)[1..];
    }
  }

  lemma {:induction false} DropAlDotsShorter(s: string, i: nat)
    requires i <= |s|
    ensures |DropAlDotsFrom(s, i)| <= |s| - i
    decreases |s| - i
  {
    if i < |s| {
      DropAlDotsShorter(s, i + 1);
    }
  }

  /** `fliter_long` changes its input exactly when the input holds `al.`. */
  lemma FliterLongUnchanged(s: string)
    ensures FliterLong(s) == s <==> forall k :: 0 <= k < |s| ==> !AlDotAt(s, k)
  {
    FliterLongDropsAlDots(s);
    DropAlDotsNone(s, 0);
  }

  /** `fliter_long` is not idempotent: `al..` loses one dot per pass. */
  lemma FliterLongNotIdempotent()
    ensures FliterLong("al..") == "al."
    ensures FliterLong(FliterLong("al..")) == "al"
  {
    FliterLongDropsAlDots("al..");
    assert AlDotAt("al..", 2);
    FliterLongDropsAlDots("al.");
    assert AlDotAt("al.", 2);
  }


  /** The characters `fliter_short` removes, in the order of its calls:
      ASCII punctuation, then full-width forms. */
  const ShortChars: seq<char> := [
    '.', ',', '?', '!', ':', '"', '(', ')', '<', '>',
    '\U{201C}', '\U{201D}', '\U{3002}', '\U{FF0C}', '\U{FF1A}', '\U{FF08}', '\U{FF09}', '\U{300A}', '\U{300B}'
  ]

  const ShortRemoved: set<char> := set c | c in ShortChars

  /** `replace(c, "")` for each `c` of `cs` in turn. */
  function RemoveEach(s: string, cs: seq<char>): string
    decreases |cs|
  {
    if cs == [] then s else RemoveEach(Replace(s, [cs[0]], ""), cs[1..])
  }

  /** `fliter_short`: nineteen `replace(c, "")` calls in a row. */
  function FliterShort(input: string): string
  {
    RemoveEach(input, ShortChars)
  }

  lemma {:induction false} RemoveEachStrips(s: string, x: string, drop: set<char>, cs: seq<char>)
    requires x == StripChars(s, drop)
    ensures RemoveEach(x, cs) == StripChars(s, drop + set c | c in cs)
    decreases |cs|
  {
    if cs != [] {
      ReplaceOneChar(x, cs[0], "");
      StripThenRemove(s, drop, cs[0]);
      RemoveEachStrips(s, Replace(x, [cs[0]], ""), drop + {cs[0]}, cs[1..]);
      assert drop + {cs[0]} + (set c | c in cs[1..]) == drop + set c | c in cs;
    } else {
      assert drop + (set c | c in cs) == drop;
    }
  }

  /** `fliter_short` keeps exactly the characters outside `ShortRemoved`, in
      order. */
  lemma FliterShortStrips(s: string)
    ensures FliterShort(s) == StripChars(s, ShortRemoved)
  {
    StripCharsUnchanged(s, {});
    RemoveEachStrips(s, s, {}, ShortChars);
    assert {} + ShortRemoved == ShortRemoved;
  }

  /** None of the removed characters survives, every surviving character
      comes from the input, and a second pass changes nothing. */
  lemma FliterShortClean(s: string)
    ensures forall c :: c in FliterShort(s) ==> c !in ShortRemoved && c in s
    ensures FliterShort(FliterShort(s)) == FliterShort(s)
  {
    FliterShortStrips(s);
    FliterShortStrips(FliterShort(s));
    StripCharsResult(s, ShortRemoved);
    StripCharsIdempotent(s, ShortRemoved);
  }

  /** `fliter_short` leaves a text alone exactly when it holds none of the
      removed characters. */
  lemma FliterShortUnchanged(s: string)
    ensures FliterShort(s) == s <==> forall i :: 0 <= i < |s| ==> s[i] !in ShortRemoved
  {
    FliterShortStrips(s);
    StripCharsUnchanged(s, ShortRemoved);
  }

  lemma {:induction false} StripDropAlDots(s: string, i: nat, drop: set<char>)
    requires i <= |s| && '.' in drop
    ensures StripChars(DropAlDotsFrom(s, i), drop) == StripChars(s[i..], drop)
    decreases |s| - i
  {
    if i < |s| {
      StripDropAlDots(s, i + 1, drop);
      var head := if AlDotAt(s, i) then [] else [s[i]];
      StripCharsAppend(head, DropAlDotsFrom(s, i + 1), drop);
      assert s[i..] == [s[i]] + s[i + 1..];
      StripCharsAppend([s[i]], s[i + 1..], drop);
    }
  }

  /** `fliter_long` only removes dots, which `fliter_short` removes anyway:
      running both is running `fliter_short` alone. */
  lemma ShortAfterLong(s: string)
    ensures FliterShort(FliterLong(s)) == FliterShort(s)
  {
    FliterLongDropsAlDots(s);
    FliterShortStrips(FliterLong(s));
    FliterShortStrips(s);
    assert '.' in ShortRemoved by {
      assert ShortChars[0] == '.';
    }
    StripDropAlDots(s, 0, ShortRemoved);
    assert s[0..] == s;
  }
}
