/** The Google Translate requests and the two loops that turn its JSON
    responses into records (`google_translate_longstring` and
    `google_translate_shortword`). A record is a list of strings: the
    translation, the original text, then the alternative translations. */
module GoogleApi {
  import opened Strings
  import opened Errors
  import opened Json
  import opened Utils

  /** `max_loop`: the last candidate index the long-string loop looks at. */
  const MaxLoop: nat := 100

  /** The message of a panicking `Option::unwrap`. */
  const UnwrapNone: string := "called `Option::unwrap()` on a `None` value"

  // ---------------------------------------------------------------------
  // Request URLs
  // ---------------------------------------------------------------------

  /** The request URL up to its first parameter, `client=gtx`; the other
      parameters follow, each after a `&`. */
  const UrlHead: string := "https://" + GoogleHost + GooglePath + "?client=gtx"

  const GoogleHost: string := "translate.googleapis.com"

  const GooglePath: string := "/translate_a/single"

  /** The long-string request URL,
      `...single?client=gtx&sl={sl}&tl={tl}&dt=t&q={text}`: the text goes out
      with each `al.` turned into `al` (the `fliter_char` closure is
      `fliter_long`). */
  function LongStringUrl(sl: string, tl: string, text: string): string
  {
    JoinWith([UrlHead, "sl=" + sl, "tl=" + tl, "dt=t"], "q=" + FliterLong(text), '&')
  }

  /** The fixed parameters of the short-word request, between `tl` and `q`. */
  const ShortWordParams: seq<string> :=
    ["dj=1", "dt=t", "dt=bd", "dt=qc", "dt=rm", "dt=ex", "dt=at", "dt=ss", "dt=rw", "dt=ld"]

  /** The short-word request URL,
      `...single?client=gtx&sl={sl}&tl={tl}&dj=1&dt=t&...&dt=ld&q={text}&button&tk=233819.233819`:
      the text goes out without the nineteen characters `fliter_short`
      removes (the closure is the same chain of `replace` calls). */
  function ShortWordUrl(sl: string, tl: string, text: string): string
  {
    JoinWith([UrlHead, "sl=" + sl, "tl=" + tl] + ShortWordParams + ["q=" + FliterShort(text), "button"],
      "tk=233819.233819", '&')
  }

  lemma UrlHeadPlain()
    ensures '&' !in UrlHead
  {
    assert '&' !in "https://" && '&' !in GoogleHost && '&' !in GooglePath && '&' !in "?client=gtx";
  }

  /** `fliter_long` brings in no `&`. */
  lemma LongKeepsAmpersandOut(text: string)
    requires '&' !in text
    ensures '&' !in FliterLong(text)
  {
    FliterLongDropsAlDots(text);
    DropAlDotsSubset(text, 0);
  }

  /** `fliter_short` brings in no `&`. */
  lemma ShortKeepsAmpersandOut(text: string)
    requires '&' !in text
    ensures '&' !in FliterShort(text)
  {
    FliterShortClean(text);
  }

  lemma {:induction false} DropAlDotsSubset(s: string, i: nat)
    requires i <= |s|
    ensures forall c :: c in DropAlDotsFrom(s, i) ==> c in s
    decreases |s| - i
  {
    if i < |s| {
      DropAlDotsSubset(s, i + 1);
    }
  }

  /** For a text without `&` (every text the `get_text` filter produces) and
      codes without one (every code of the tables), the long-string URL
      has exactly the parameters `client`, `sl`, `tl`, `dt` and `q`, and `q`
      carries the text after `fliter_long`. */
  lemma LongStringParameters(sl: string, tl: string, text: string)
    requires '&' !in text && '&' !in sl && '&' !in tl
    ensures Split(LongStringUrl(sl, tl, text), '&')
         == [UrlHead, "sl=" + sl, "tl=" + tl, "dt=t", "q=" + FliterLong(text)]
  {
    LongKeepsAmpersandOut(text);
    UrlHeadPlain();
    var fields := [UrlHead, "sl=" + sl, "tl=" + tl, "dt=t"];
    assert '&' !in "sl=" + sl && '&' !in "tl=" + tl && '&' !in "q=" + FliterLong(text);
    assert forall k :: 0 <= k < |fields| ==> '&' !in fields[k];
    SplitJoinWith(fields, "q=" + FliterLong(text), '&');
  }

  /** The same for the short-word URL, whose `q` carries the text after
      `fliter_short`, followed by `button` and `tk`. */
  lemma ShortWordParameters(sl: string, tl: string, text: string)
    requires '&' !in text && '&' !in sl && '&' !in tl
    ensures Split(ShortWordUrl(sl, tl, text), '&')
         == [UrlHead, "sl=" + sl, "tl=" + tl] + ShortWordParams
            + ["q=" + FliterShort(text), "button", "tk=233819.233819"]
  {
    var sent := FliterShort(text);
    ShortKeepsAmpersandOut(text);
    assert '&' !in "q=" + sent;
    ShortFieldsSplit(sl, tl, "q=" + sent);
  }

  lemma ShortFieldsSplit(sl: string, tl: string, q: string)
    requires '&' !in sl && '&' !in tl && '&' !in q
    ensures Split(JoinWith([UrlHead, "sl=" + sl, "tl=" + tl] + ShortWordParams + [q, "button"], "tk=233819.233819", '&'), '&')
         == [UrlHead, "sl=" + sl, "tl=" + tl] + ShortWordParams + [q, "button", "tk=233819.233819"]
  {
    UrlHeadPlain();
    var fields := [UrlHead, "sl=" + sl, "tl=" + tl] + ShortWordParams + [q, "button"];
    assert '&' !in "sl=" + sl && '&' !in "tl=" + tl;
    assert forall k :: 0 <= k < |fields| ==> '&' !in fields[k];
    SplitJoinWith(fields, "tk=233819.233819", '&');
  }

  // ---------------------------------------------------------------------
  // The long-string response: [[[trans, orig, ...], ...], ...]
  // ---------------------------------------------------------------------

  /** `response[0][i]`: the candidate tuple at `i`. */
  function Candidate(response: Json, i: nat): Json
  {
    At(At(response, 0), i)
  }

  /** The translation and original of candidate `i`, quotes removed. */
  function Pair(response: Json, i: nat): seq<string>
  {
    [Text(At(Candidate(response, i), 0)), Text(At(Candidate(response, i), 1))]
  }

  /** Candidate `i` is kept unless its translation is exactly `.`. */
  predicate Kept(response: Json, i: nat)
  {
    Text(At(Candidate(response, i), 0)) != "."
  }

  /** The records the long-string loop builds from candidate `i` on. */
  function LongRecordsFrom(response: Json, i: nat): seq<seq<string>>
    decreases MaxLoop + 1 - i
  {
    if i > MaxLoop || At(Candidate(response, i), 0) == JNull then []
    else (if Kept(response, i) then [Pair(response, i)] else []) + LongRecordsFrom(response, i + 1)
  }

  function LongRecords(response: Json): seq<seq<string>>
  {
    LongRecordsFrom(response, 0)
  }

  /** What candidate `i` contributes to the records. */
  function Entry(response: Json, i: nat): seq<seq<string>>
  {
    if Kept(response, i) then [Pair(response, i)] else []
  }

  lemma LongRecordsStep(response: Json, i: nat)
    requires i <= MaxLoop && At(Candidate(response, i), 0) != JNull
    ensures LongRecordsFrom(response, i) == Entry(response, i) + LongRecordsFrom(response, i + 1)
  {
  }

  /** One pass of the long-string loop body: whether the translation of
      candidate `i` displays as `null`, and otherwise the record it adds. */
  method LongCandidate(response: Json, i: nat) returns (stop: bool, entry: seq<seq<string>>)
    ensures stop <==> At(Candidate(response, i), 0) == JNull
    ensures !stop ==> entry == Entry(response, i)
  {
    var shown0 := Render(At(Candidate(response, i), 0));
    var shown1 := Render(At(Candidate(response, i), 1));
    RenderIsNull(At(Candidate(response, i), 0));
    if shown0 == "null" {
      return true, [];
    }
    var text0 := Replace(shown0, "\"", "");
    var text1 := Replace(shown1, "\"", "");
    if |text0| == 1 && text0 == "." {
      entry := [];
    } else {
      entry := [[text0, text1]];
    }
    stop := false;
  }

  /** The loop of `google_translate_longstring`: walk the candidates until a
      translation displays as `null`, skip a bare `.`, stop after index
      `max_loop`. */
  method NormaliseLong(response: Json) returns (records: seq<seq<string>>)
    ensures records == LongRecords(response)
  {
    var i: nat := 0;
    records := [];
    while true
      invariant i <= MaxLoop
      invariant records + LongRecordsFrom(response, i) == LongRecords(response)
      decreases MaxLoop - i
    {
      var stop, entry := LongCandidate(response, i);
      if stop {
        LongLoopStop(response, i, records);
        break;
      }
      LongLoopAdvance(response, i, records);
      records := records + entry;
      i := i + 1;
      if i > MaxLoop {
        break;
      }
    }
  }

  /** The loop's invariant survives one more candidate, and at the cap the
      records are complete. */
  lemma LongLoopAdvance(response: Json, i: nat, records: seq<seq<string>>)
    requires i <= MaxLoop && At(Candidate(response, i), 0) != JNull
    requires records + LongRecordsFrom(response, i) == LongRecords(response)
    ensures (records + Entry(response, i)) + LongRecordsFrom(response, i + 1) == LongRecords(response)
    ensures i + 1 > MaxLoop ==> records + Entry(response, i) == LongRecords(response)
  {
    LongRecordsStep(response, i);
    if i + 1 > MaxLoop {
      assert LongRecordsFrom(response, i + 1) == [];
    }
    AppendRest(records, Entry(response, i), LongRecordsFrom(response, i + 1), LongRecords(response));
  }

  lemma AppendRest<T>(prefix: seq<T>, entry: seq<T>, rest: seq<T>, total: seq<T>)
    requires prefix + (entry + rest) == total
    ensures (prefix + entry) + rest == total
    ensures rest == [] ==> prefix + entry == total
  {
    assert (prefix + entry) + rest == prefix + (entry + rest);
    assert rest == [] ==> (prefix + entry) + rest == prefix + entry;
  }

  /** At a null translation the records are complete. */
  lemma LongLoopStop(response: Json, i: nat, records: seq<seq<string>>)
    requires At(Candidate(response, i), 0) == JNull
    requires records + LongRecordsFrom(response, i) == LongRecords(response)
    ensures records == LongRecords(response)
  {
    assert LongRecordsFrom(response, i) == [];
    assert records + [] == records;
  }

  /** How many candidates the loop looks at from `i` on. */
  function ExaminedFrom(response: Json, i: nat): nat
    decreases MaxLoop + 1 - i
  {
    if i > MaxLoop || At(Candidate(response, i), 0) == JNull then i else ExaminedFrom(response, i + 1)
  }

  function Examined(response: Json): nat
  {
    ExaminedFrom(response, 0)
  }

  /** The indices of the candidates that become records, from `i` on. */
  ghost function KeptIndicesFrom(response: Json, i: nat): seq<nat>
    decreases MaxLoop + 1 - i
  {
    if i > MaxLoop || At(Candidate(response, i), 0) == JNull then []
    else (if Kept(response, i) then [i] else []) + KeptIndicesFrom(response, i + 1)
  }

  lemma {:induction false} ExaminedFromBounds(response: Json, i: nat)
    requires i <= MaxLoop + 1
    ensures i <= ExaminedFrom(response, i) <= MaxLoop + 1
    ensures ExaminedFrom(response, i) <= Len(At(response, 0)) || i > Len(At(response, 0))
    ensures forall k :: i <= k < ExaminedFrom(response, i) ==> At(Candidate(response, k), 0) != JNull
    ensures ExaminedFrom(response, i) <= MaxLoop ==> At(Candidate(response, ExaminedFrom(response, i)), 0) == JNull
    decreases MaxLoop + 1 - i
  {
    if !(i > MaxLoop || At(Candidate(response, i), 0) == JNull) {
      ExaminedFromBounds(response, i + 1);
    }
  }

  /** At most `max_loop + 1` candidates are examined, none past the end of
      the candidate array (past the end, and inside anything that is not an
      array, indexing yields `null`); every examined candidate has a
      translation and the scan stops at the first one that has none. */
  lemma ExaminedBounds(response: Json)
    ensures Examined(response) <= MaxLoop + 1 && Examined(response) <= Len(At(response, 0))
    ensures forall k :: 0 <= k < Examined(response) ==> At(Candidate(response, k), 0) != JNull
    ensures Examined(response) <= MaxLoop ==> At(Candidate(response, Examined(response)), 0) == JNull
  {
    ExaminedFromBounds(response, 0);
  }

  lemma {:induction false} LongIndexedPairs(response: Json, i: nat)
    requires i <= MaxLoop + 1
    ensures |KeptIndicesFrom(response, i)| == |LongRecordsFrom(response, i)|
    ensures forall j :: 0 <= j < |KeptIndicesFrom(response, i)| ==>
      LongRecordsFrom(response, i)[j] == Pair(response, KeptIndicesFrom(response, i)[j])
    decreases MaxLoop + 1 - i
  {
    if !(i > MaxLoop || At(Candidate(response, i), 0) == JNull) {
      LongIndexedPairs(response, i + 1);
    }
  }

  /** The indices in `[i, stop)` that satisfy `keep`, in increasing order. */
  ghost function Select(keep: nat -> bool, i: nat, stop: nat): seq<nat>
    decreases stop - i
  {
    if i >= stop then [] else (if keep(i) then [i] else []) + Select(keep, i + 1, stop)
  }

  lemma {:induction false} SelectMembers(keep: nat -> bool, i: nat, stop: nat)
    ensures forall k: nat :: k in Select(keep, i, stop) <==> i <= k < stop && keep(k)
    decreases stop - i
  {
    if i < stop {
      SelectMembers(keep, i + 1, stop);
      var head: seq<nat> := if keep(i) then [i] else [];
      var rest := Select(keep, i + 1, stop);
      forall k: nat
        ensures k in head + rest <==> k in head || k in rest
      {
      }
    }
  }

  lemma {:induction false} SelectIncreasing(keep: nat -> bool, i: nat, stop: nat)
    ensures forall j1, j2 :: 0 <= j1 < j2 < |Select(keep, i, stop)| ==>
      Select(keep, i, stop)[j1] < Select(keep, i, stop)[j2]
    decreases stop - i
  {
    if i < stop {
      SelectIncreasing(keep, i + 1, stop);
      SelectMembers(keep, i + 1, stop);
      var rest := Select(keep, i + 1, stop);
      assert forall j :: 0 <= j < |rest| ==> rest[j] in rest;
    }
  }

  /** The kept indices are those of the examined candidates whose translation
      is kept. */
  lemma {:induction false} KeptIndicesSelect(response: Json, i: nat)
    requires i <= MaxLoop + 1
    ensures KeptIndicesFrom(response, i) == Select((k: nat) => Kept(response, k), i, ExaminedFrom(response, i))
    decreases MaxLoop + 1 - i
  {
    var keep := (k: nat) => Kept(response, k);
    if !(i > MaxLoop || At(Candidate(response, i), 0) == JNull) {
      KeptIndicesSelect(response, i + 1);
      ExaminedFromBounds(response, i + 1);
      assert keep(i) == Kept(response, i);
    }
  }

  /** The long-string records are, in candidate order, the quote-free
      `[translation, original]` pairs of exactly the examined candidates whose
      translation is not `.`. */
  lemma LongRecordsIndexed(response: Json) returns (indices: seq<nat>)
    ensures |indices| == |LongRecords(response)|
    ensures forall j :: 0 <= j < |indices| ==> LongRecords(response)[j] == Pair(response, indices[j])
    ensures forall j1, j2 :: 0 <= j1 < j2 < |indices| ==> indices[j1] < indices[j2]
    ensures forall k: nat :: k in indices <==> k < Examined(response) && Kept(response, k)
  {
    indices := KeptIndicesFrom(response, 0);
    LongIndexedPairs(response, 0);
    KeptIndicesSelect(response, 0);
    SelectMembers((k: nat) => Kept(response, k), 0, Examined(response));
    SelectIncreasing((k: nat) => Kept(response, k), 0, Examined(response));
  }

  /** At most `max_loop + 1` records; each is a pair of quote-free texts and
      none is the bare `.`. */
  lemma LongRecordsShape(response: Json)
    ensures |LongRecords(response)| <= MaxLoop + 1
    ensures forall r :: r in LongRecords(response) ==>
      |r| == 2 && r[0] != "." && '"' !in r[0] && '"' !in r[1]
  {
    var indices := LongRecordsIndexed(response);
    ExaminedBounds(response);
    IncreasingBelow(indices, Examined(response));
    forall r | r in LongRecords(response)
      ensures |r| == 2 && r[0] != "." && '"' !in r[0] && '"' !in r[1]
    {
      var j :| 0 <= j < |LongRecords(response)| && LongRecords(response)[j] == r;
      assert indices[j] in indices;
      TextUnquoted(At(Candidate(response, indices[j]), 0));
      TextUnquoted(At(Candidate(response, indices[j]), 1));
    }
  }

  /** A strictly increasing list of naturals below `n` has at most `n`
      elements. */
  lemma {:induction false} IncreasingBelow(xs: seq<nat>, n: nat)
    requires forall j1, j2 :: 0 <= j1 < j2 < |xs| ==> xs[j1] < xs[j2]
    requires forall x :: x in xs ==> x < n
    ensures |xs| <= n
  {
    if xs != [] {
      var last := xs[|xs| - 1];
      var init := xs[..|xs| - 1];
      assert forall x :: x in init ==> x < last by {
        forall x | x in init ensures x < last {
          var j :| 0 <= j < |init| && init[j] == x;
        }
      }
      assert last in xs;
      IncreasingBelow(init, last);
    }
  }

  /** A response with a single candidate whose translation is not `.` and
      whose translation and original are quote-free strings, as in `[[["你好","hello",null,null,10]]]`, gives
      exactly the one record `[translation, original]`. */
  lemma LongSingleCandidate(translation: string, original: string, rest: seq<Json>, tail: seq<Json>)
    requires translation != "." && '"' !in translation && '"' !in original
    ensures LongRecords(JArr([JArr([JArr([JStr(translation), JStr(original)] + rest)])] + tail))
         == [[translation, original]]
  {
    var response := JArr([JArr([JArr([JStr(translation), JStr(original)] + rest)])] + tail);
    TextOfString(translation);
    TextOfString(original);
    KeepAllChars(translation, {'"'});
    KeepAllChars(original, {'"'});
    assert At(Candidate(response, 0), 0) == JStr(translation);
    assert At(Candidate(response, 0), 1) == JStr(original);
    LongRecordsStep(response, 0);
    assert Candidate(response, 1) == JNull;
    assert LongRecordsFrom(response, 1) == [];
  }

  lemma {:induction false} KeepAllChars(s: string, drop: set<char>)
    requires forall c :: c in s ==> c !in drop
    ensures StripChars(s, drop) == s
  {
    if s != [] {
      KeepAllChars(s[1..], drop);
      assert s == [s[0]] + s[1..];
    }
  }

  // ---------------------------------------------------------------------
  // The short-word response: {"sentences":[{"trans":..,"orig":..}],
  //   "alternative_translations":[{"alternative":[{"word_postproc":..},..]}]}
  // ---------------------------------------------------------------------

  /** `alternative[i].get("word_postproc")`. */
  function WordAt(alternative: Json, i: nat): Option<Json>
  {
    Get(At(alternative, i), "word_postproc")
  }

  /** The index of the first alternative without `word_postproc`, from `i`
      on: where the alternatives loop stops. */
  function AltCountFrom(alternative: Json, i: nat): nat
    decreases Len(alternative) - i
  {
    if WordAt(alternative, i).None? then i else AltCountFrom(alternative, i + 1)
  }

  function AltCount(alternative: Json): nat
  {
    AltCountFrom(alternative, 0)
  }

  lemma {:induction false} AltCountFromBounds(alternative: Json, i: nat)
    ensures i <= AltCountFrom(alternative, i)
    ensures i <= Len(alternative) ==> AltCountFrom(alternative, i) <= Len(alternative)
    ensures forall k :: i <= k < AltCountFrom(alternative, i) ==> WordAt(alternative, k).Some?
    ensures WordAt(alternative, AltCountFrom(alternative, i)).None?
    decreases Len(alternative) - i
  {
    if WordAt(alternative, i).Some? {
      AltCountFromBounds(alternative, i + 1);
    }
  }

  /** The loop reads the alternatives up to the first one without
      `word_postproc`, never past the end of the list. */
  lemma AltCountBounds(alternative: Json)
    ensures AltCount(alternative) <= Len(alternative)
    ensures forall k :: 0 <= k < AltCount(alternative) ==> WordAt(alternative, k).Some?
    ensures WordAt(alternative, AltCount(alternative)).None?
  {
    AltCountFromBounds(alternative, 0);
  }

  /** The quote-free text of the `word_postproc` of alternative `i`. */
  function WordText(alternative: Json, i: nat): string
  {
    match WordAt(alternative, i)
    case Some(w) => Text(w)
    case None => ""
  }

  /** The alternatives `1 .. n-1` of a list whose first `n` carry
      `word_postproc`: the first is left out. */
  function LaterAlternatives(alternative: Json, n: nat): seq<string>
  {
    if n <= 1 then [] else seq(n - 1, k requires 0 <= k < n - 1 => WordText(alternative, k + 1))
  }

  lemma LaterAlternativesStep(alternative: Json, i: nat)
    ensures LaterAlternatives(alternative, i + 1)
         == LaterAlternatives(alternative, i) + (if i == 0 then [] else [WordText(alternative, i)])
  {
  }

  /** The three members the short-word function `unwrap`s its way to:
      `sentences[0].trans`, `sentences[0].orig` and
      `alternative_translations[0].alternative`. */
  datatype ShortParts = ShortParts(trans: Json, orig: Json, alternative: Json)

  /** The members, or `None` when one of the five `unwrap`ped lookups
      (`sentences`, `trans`, `orig`, `alternative_translations`,
      `alternative`) finds nothing. */
  function Parts(response: Json): Option<ShortParts>
  {
    match Get(response, "sentences")
    case None => None
    case Some(sentences) =>
      match Get(At(sentences, 0), "trans")
      case None => None
      case Some(trans) =>
        match Get(At(sentences, 0), "orig")
        case None => None
        case Some(orig) =>
          match Get(response, "alternative_translations")
          case None => None
          case Some(alternatives) =>
            match Get(At(alternatives, 0), "alternative")
            case None => None
            case Some(alternative) => Some(ShortParts(trans, orig, alternative))
  }

  /** The one record: `[trans, orig, alternative[1], ..., alternative[n-1]]`,
      quotes removed, where the first `n` alternatives carry
      `word_postproc`. */
  function ShortRecord(parts: ShortParts): seq<string>
  {
    [Text(parts.trans), Text(parts.orig)] + LaterAlternatives(parts.alternative, AltCount(parts.alternative))
  }

  /** What `google_translate_shortword` returns for a response: the one
      record, or a panic when one of the `unwrap`ped members is missing. */
  function ShortRecords(response: Json): Outcome<seq<seq<string>>>
  {
    match Parts(response)
    case None => Panicked(UnwrapNone)
    case Some(parts) => Returned([ShortRecord(parts)])
  }

  /** `google_translate_shortword`: take `sentences[0]`'s `trans` and
      `orig`, then the alternatives' words; panic on a missing member. */
  method NormaliseShort(response: Json) returns (out: Outcome<seq<seq<string>>>)
    ensures out == ShortRecords(response)
  {
    var sentences := Get(response, "sentences");
    if sentences.None? {
      return Panicked(UnwrapNone);
    }
    var trans := Get(At(sentences.value, 0), "trans");
    if trans.None? {
      return Panicked(UnwrapNone);
    }
    var orig := Get(At(sentences.value, 0), "orig");
    if orig.None? {
      return Panicked(UnwrapNone);
    }
    var record := [Replace(Render(trans.value), "\"", ""), Replace(Render(orig.value), "\"", "")];
    var alternatives := Get(response, "alternative_translations");
    if alternatives.None? {
      return Panicked(UnwrapNone);
    }
    var alternative := Get(At(alternatives.value, 0), "alternative");
    if alternative.None? {
      return Panicked(UnwrapNone);
    }
    record := CollectLater(alternative.value, record);
    assert Parts(response) == Some(ShortParts(trans.value, orig.value, alternative.value));
    return Returned([record]);
  }

  /** The alternatives loop of `google_translate_shortword`: append the
      `word_postproc` of every alternative but the first, quotes removed, up
      to the first alternative without one. */
  method CollectLater(alternative: Json, head: seq<string>) returns (record: seq<string>)
    ensures record == head + LaterAlternatives(alternative, AltCount(alternative))
  {
    AltCountBounds(alternative);
    record := head;
    var i: nat := 0;
    while true
      invariant i <= AltCount(alternative)
      invariant record == head + LaterAlternatives(alternative, i)
      decreases Len(alternative) - i
    {
      var word := Get(At(alternative, i), "word_postproc");
      assert word == WordAt(alternative, i);
      if word.None? {
        break;
      }
      var shown := Render(word.value);
      LaterAlternativesStep(alternative, i);
      if i != 0 {
        var text := Replace(shown, "\"", "");
        assert text == WordText(alternative, i);
        record := record + [text];
      }
      i := i + 1;
    }
    assert i == AltCount(alternative);
  }

  lemma LaterAlternativesAt(alternative: Json, n: nat, k: nat)
    requires k + 1 < n
    ensures |LaterAlternatives(alternative, n)| == n - 1
    ensures LaterAlternatives(alternative, n)[k] == WordText(alternative, k + 1)
  {
  }

  /** The short-word record holds the translation, the original, and then
      the texts of alternatives `1 .. n-1` in order, where `n` alternatives
      carry `word_postproc`: the first alternative never appears. */
  lemma ShortRecordShape(parts: ShortParts)
    ensures var record := ShortRecord(parts);
      var n := AltCount(parts.alternative);
      |record| == 2 + (if n == 0 then 0 else n - 1)
      && record[0] == Text(parts.trans) && record[1] == Text(parts.orig)
      && forall k :: 2 <= k < |record| ==>
           WordAt(parts.alternative, k - 1).Some? && record[k] == Text(WordAt(parts.alternative, k - 1).value)
  {
    var alt := parts.alternative;
    var n := AltCount(alt);
    AltCountBounds(alt);
    var later := LaterAlternatives(alt, n);
    var record := ShortRecord(parts);
    assert |later| == (if n == 0 then 0 else n - 1);
    assert record[2..] == later;
    forall k | 2 <= k < |record|
      ensures WordAt(alt, k - 1).Some? && record[k] == Text(WordAt(alt, k - 1).value)
    {
      LaterAlternativesAt(alt, n, k - 2);
      assert record[k] == later[k - 2];
    }
  }

  /** Each text of the short-word record is free of quotes. */
  lemma ShortRecordUnquoted(parts: ShortParts)
    ensures forall s :: s in ShortRecord(parts) ==> '"' !in s
  {
    var alt := parts.alternative;
    var n := AltCount(alt);
    AltCountBounds(alt);
    var later := LaterAlternatives(alt, n);
    var record := ShortRecord(parts);
    assert record[2..] == later;
    forall s | s in record ensures '"' !in s {
      var k :| 0 <= k < |record| && record[k] == s;
      if k == 0 {
        TextUnquoted(parts.trans);
      } else if k == 1 {
        TextUnquoted(parts.orig);
      } else {
        LaterAlternativesAt(alt, n, k - 2);
        assert s == later[k - 2];
        TextUnquoted(WordAt(alt, k - 1).value);
      }
    }
  }
}
