/** The translator's main module: `translate`, which picks the provider
    from the `api` option and the content, and the state of `main`'s polling
    loop (the last text seen, the screen-clear counter and the translation
    index), kept by the class `Poller`. */
module Translator {
  import opened Errors
  import opened Records
  import opened DeepLApi

  /** `TranslateResults` without its two timestamps. */
  datatype TranslateResults = TranslateResults(results: seq<TranslateResult>, proxy: string, theme: string, index: nat)

  /** The provider function `translate` calls. */
  datatype Provider = GoogleLongString | GoogleShortWord | DeepLFree | DeepLPro

  /** What `translate` did: the provider it called, if any, and what it
      returned. */
  datatype Dispatch = Dispatch(called: Option<Provider>, outcome: Result<TranslateResults>)

  /** The `contains_symbol` closure: the content holds a plain space. */
  predicate ContainsSpace(content: string)
  {
    ' ' in content
  }

  /** The provider the `match` on `api` selects, `None` for an unknown one. */
  function Route(api: string, content: string): (r: Option<Provider>)
    ensures r.None? <==> api != "google" && api != "deepl" && api != "deeplpro"
    ensures api == "google" ==> (r == Some(GoogleLongString) <==> exists i :: 0 <= i < |content| && content[i] == ' ')
    ensures api == "google" ==> (r == Some(GoogleShortWord) <==> forall i :: 0 <= i < |content| ==> content[i] != ' ')
    ensures api == "deepl" ==> r == Some(DeepLFree)
    ensures api == "deeplpro" ==> r == Some(DeepLPro)
  {
    if api == "google" then Some(if ContainsSpace(content) then GoogleLongString else GoogleShortWord)
    else if api == "deepl" then Some(DeepLFree)
    else if api == "deeplpro" then Some(DeepLPro)
    else None
  }

  /** `translate`. The network exchange is a parameter: `reply` is what the
      provider function it calls (with `sl`, `tl`, `content`, `proxy` and,
      for DeepL, the auth key) returned. A provider error is printed and
      becomes an empty list; only an unknown `api` is an error. */
  function Translate(sl: string, tl: string, content: string, index: nat, proxy: string, theme: string,
                     api: string, reply: Result<seq<TranslateResult>>): (d: Dispatch)
    ensures d.called == Route(api, content)
    ensures d.outcome.Err? <==> d.called.None?
    ensures d.outcome.Err? ==> d.outcome.error == UnsupportApi
    ensures d.outcome.Ok? ==> d.outcome.value.index == index && d.outcome.value.proxy == proxy
                              && d.outcome.value.theme == theme
    ensures d.outcome.Ok? ==> d.outcome.value.results == (if reply.Ok? then reply.value else [])
  {
    match Route(api, content)
    case None => Dispatch(None, Err(UnsupportApi))
    case Some(provider) =>
      var results := match reply
        case Ok(r) => r
        case Err(_) => [];
      Dispatch(Some(provider), Ok(TranslateResults(results, proxy, theme, index)))
  }

  /** Only a plain space selects the long-string path: tabs and newlines do
      not. */
  lemma OnlySpaceCounts(sl: string, tl: string, index: nat, proxy: string, theme: string,
                        reply: Result<seq<TranslateResult>>)
    ensures Translate(sl, tl, "a\tb\nc", index, proxy, theme, "google", reply).called == Some(GoogleShortWord)
    ensures Translate(sl, tl, "a b", index, proxy, theme, "google", reply).called == Some(GoogleLongString)
  {
    assert "a b"[1] == ' ';
  }

  /** Through `translate`, DeepL's own failures (a missing key, a failed
      exchange) still end in `Ok`, with no results; with a key and an
      answer, there is one result per translation the server returned. */
  lemma DeepLFailureIsEmpty(sl: string, tl: string, content: string, index: nat, proxy: string, theme: string,
                            api: string, authKey: string, deeplReply: Result<DeepLResponse>)
    requires api == "deepl" || api == "deeplpro"
    ensures var tier := if api == "deepl" then Free else Pro;
      var d := Translate(sl, tl, content, index, proxy, theme, api, Answer(tier, sl, tl, content, authKey, deeplReply));
      d.called == Some(if api == "deepl" then DeepLFree else DeepLPro)
      && d.outcome.Ok?
      && (AuthKeyMissing(authKey) || deeplReply.Err? ==> d.outcome.value.results == [])
      && (!AuthKeyMissing(authKey) && deeplReply.Ok? ==>
            |d.outcome.value.results| == |deeplReply.value.translations|)
  {
  }

  // ---------------------------------------------------------------------
  // The polling loop of `main`
  // ---------------------------------------------------------------------

  /** A sample is translated when it is not empty and differs from the last
      text. */
  predicate Fresh(lastText: string, sample: string)
  {
    |sample| > 0 && sample != lastText
  }

  /** The last non-empty sample of a history, `""` when there is none: what
      `last_text` holds after the history. */
  function LastNonEmpty(history: seq<string>): string
  {
    if history == [] then ""
    else if |history[|history| - 1]| > 0 then history[|history| - 1]
    else LastNonEmpty(history[..|history| - 1])
  }

  /** How many samples of a history were translated. */
  function FreshCount(history: seq<string>): nat
  {
    if history == [] then 0
    else var before := history[..|history| - 1];
      FreshCount(before) + (if Fresh(LastNonEmpty(before), history[|history| - 1]) then 1 else 0)
  }

  /** The reference for `clear_count` after `t` translations with the
      setting `n`: each translation in clear mode first resets a zero
      counter to `n`, then decrements it. */
  function CountAfter(n: int, t: nat): int
  {
    if t == 0 then n
    else var c := CountAfter(n, t - 1);
      if n == 0 then c else (if c == 0 then n else c) - 1
  }

  /** Translation number `k` (from 1) clears the screen: clear mode is on
      and the counter is zero when it starts. */
  predicate ClearsAt(n: int, k: nat)
  {
    k >= 1 && n != 0 && CountAfter(n, k - 1) == 0
  }

  lemma MulAtLeast(n: int, d: int)
    requires n > 0 && d >= 1
    ensures n * d >= n
  {
    if d > 1 {
      MulAtLeast(n, d - 1);
      assert n * d == n * (d - 1) + n;
    }
  }

  lemma ModUnique(a: int, n: int, q: int, r: int)
    requires n > 0 && 0 <= r < n && a == q * n + r
    ensures a % n == r
  {
    var q0, r0 := a / n, a % n;
    assert a == q0 * n + r0;
    var d := q - q0;
    assert n * d == r0 - r by {
      assert q * n - q0 * n == (q - q0) * n;
    }
    if d >= 1 {
      MulAtLeast(n, d);
    } else if d <= -1 {
      MulAtLeast(n, -d);
    }
  }

  lemma ModSucc(a: nat, n: int)
    requires n > 0
    ensures (a + 1) % n == if a % n == n - 1 then 0 else a % n + 1
  {
    var q, r := a / n, a % n;
    assert a == q * n + r;
    if r == n - 1 {
      assert a + 1 == (q + 1) * n + 0;
      ModUnique(a + 1, n, q + 1, 0);
    } else {
      ModUnique(a + 1, n, q, r + 1);
    }
  }

  /** With a positive setting `n`, after `t >= 1` translations the counter
      is `n - 1 - (t - 1) % n`: it runs `n-1, n-2, ..., 0` and starts over. */
  lemma {:induction false} CountAfterPositive(n: int, t: nat)
    requires n > 0 && t >= 1
    ensures CountAfter(n, t) == n - 1 - (t - 1) % n
  {
    if t > 1 {
      CountAfterPositive(n, t - 1);
      ModSucc(t - 2, n);
    }
  }

  /** With a negative setting the counter only goes down: it is never zero
      again, so the screen is never cleared. */
  lemma {:induction false} CountAfterNegative(n: int, t: nat)
    requires n < 0
    ensures CountAfter(n, t) == n - t
  {
    if t > 0 {
      CountAfterNegative(n, t - 1);
    }
  }

  /** With a positive setting `n` the counter stays in `0 .. n-1` once a
      translation has happened. */
  lemma CounterRange(n: int, t: nat)
    requires n > 0 && t >= 1
    ensures 0 <= CountAfter(n, t) < n
  {
    CountAfterPositive(n, t);
  }

  /** The screen is cleared on translations `N+1, 2N+1, ...` for a positive
      setting `N`, and never otherwise (with `0` clear mode is off). */
  lemma ClearsEveryN(n: int, k: nat)
    requires k >= 1
    ensures ClearsAt(n, k) <==> n > 0 && k > 1 && (k - 1) % n == 0
  {
    if n > 0 && k > 1 {
      CountAfterPositive(n, k - 1);
      ModSucc(k - 2, n);
    } else if n < 0 {
      CountAfterNegative(n, k - 1);
    }
  }

  /** `last_text` follows the non-empty samples: an empty one leaves it, a
      non-empty one replaces it. So right after a sample, the same sample is
      never translated again. */
  lemma RepeatSkipped(history: seq<string>, sample: string)
    ensures |sample| > 0 ==> LastNonEmpty(history + [sample]) == sample
    ensures |sample| == 0 ==> LastNonEmpty(history + [sample]) == LastNonEmpty(history)
    ensures !Fresh(LastNonEmpty(history + [sample]), sample)
  {
    assert (history + [sample])[..|history|] == history;
  }

  lemma HistoryStep(history: seq<string>, sample: string)
    ensures LastNonEmpty(history + [sample]) == if |sample| > 0 then sample else LastNonEmpty(history)
    ensures FreshCount(history + [sample])
         == FreshCount(history) + if Fresh(LastNonEmpty(history), sample) then 1 else 0
  {
    assert (history + [sample])[..|history|] == history;
  }

  /** No more samples are translated than were read. */
  lemma {:induction false} FreshCountBound(history: seq<string>)
    ensures FreshCount(history) <= |history|
  {
    if history != [] {
      FreshCountBound(history[..|history| - 1]);
    }
  }

  /** The effect of the sample just translated. */
  datatype StepOutcome =
    | Skipped
    | Translated(index: nat, cleared: bool, dispatch: Dispatch)

  /** The loop's state: the options it was started with and the three
      variables it updates. Once `translate` fails (an unknown `api`), `?`
      ends `main`, and `stopped` records that no further step happens. */
  class Poller {
    const sl: string
    const tl: string
    const proxy: string
    const theme: string
    const api: string
    const authKey: string
    const clear: int
    const clearMode: bool
    var clearCount: int
    var lastText: string
    var index: nat
    var stopped: bool
    ghost var history: seq<string>

    ghost predicate Valid()
      reads this
    {
      && clearMode == (clear != 0)
      && lastText == LastNonEmpty(history)
      && clearCount == CountAfter(clear, FreshCount(history))
      && index == (if stopped then FreshCount(history) else FreshCount(history) + 1)
    }

    constructor(sl: string, tl: string, proxy: string, theme: string, api: string, authKey: string, clear: int)
      ensures Valid() && !stopped && history == []
      ensures this.sl == sl && this.tl == tl && this.proxy == proxy && this.theme == theme
      ensures this.api == api && this.authKey == authKey && this.clear == clear
      ensures index == 1 && lastText == "" && clearCount == clear
    {
      this.sl, this.tl, this.proxy, this.theme := sl, tl, proxy, theme;
      this.api, this.authKey, this.clear := api, authKey, clear;
      clearMode := clear != 0;
      clearCount := clear;
      lastText := "";
      index := 1;
      stopped := false;
      history := [];
    }

    /** One pass of the loop with the sample just read: decide, update
      `last_text`, and for a fresh sample update the clear counter, call
      `translate` with the current index and advance it. */
    method Step(sample: string, reply: Result<seq<TranslateResult>>)
      returns (outcome: StepOutcome)
      requires Valid() && !stopped
      modifies this
      ensures Valid() && history == old(history) + [sample]
      ensures outcome.Translated? <==> Fresh(old(lastText), sample)
      ensures lastText == if |sample| > 0 then sample else old(lastText)
      ensures !stopped ==> index == old(index) + (if outcome.Translated? then 1 else 0)
      ensures outcome.Translated? ==>
        outcome.index == old(index) && outcome.cleared == ClearsAt(clear, old(index))
        && outcome.dispatch == Translate(sl, tl, sample, old(index), proxy, theme, api, reply)
      ensures stopped <==> outcome.Translated? && outcome.dispatch.outcome.Err?
    {
      HistoryStep(history, sample);
      history := history + [sample];
      var isNew := false;
      if |sample| > 0 {
        isNew := sample != lastText;
        if lastText != sample {
          lastText := sample;
        }
      }
      if !isNew {
        return Skipped;
      }
      var cleared := false;
      if clearMode {
        if clearCount == 0 {
          cleared := true;
          clearCount := clear;
        }
        clearCount := clearCount - 1;
      }
      var dispatch := Translate(sl, tl, sample, index, proxy, theme, api, reply);
      outcome := Translated(index, cleared, dispatch);
      if dispatch.outcome.Err? {
        stopped := true;
        return;
      }
      index := index + 1;
    }
  }
}
