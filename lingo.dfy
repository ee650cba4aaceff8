/**
 * The word synthesiser of make-lingo, `makeLingo` (index.js:29-43).
 *
 * The random choice `weighted.select(values, weights)` is abstracted as a chooser: a function
 * of the weight list and of the number of draws made so far that returns a position in the list.
 * With the chooser fixed, generation is deterministic, and the specification functions below
 * describe exactly which draws are made, in which order, and what is produced from them.
 */
module Lingo {
  import opened Tables

  /** The failure of a draw from an empty list. */
  datatype Error = EmptyDistribution

  datatype Result<+T> = Ok(value: T) | Err(error: Error)

  /** The number of words generated when the request does not say. */
  const DefaultWordCount: nat := 100

  /** The request parameters, already read from the query string: `words` and `syllables`. */
  datatype Query = Query(words: Option<nat>, syllables: Option<nat>)

  /** How many words a request asks for: its `words`, or the default when absent. */
  function WordCount(query: Query): (n: nat)
    ensures query.words.None? ==> n == DefaultWordCount
    ensures query.words.Some? ==> n == query.words.value
    ensures n == 0 <==> query.words == Some(0)
  {
    match query.words
    case None => DefaultWordCount
    case Some(n) => n
  }

  /** The random choice: given the weights and the index of the draw, a position in the list. */
  type Chooser = (seq<nat>, nat) -> nat

  /** A chooser answers with a position inside every non-empty weight list. */
  ghost predicate ValidChooser(pick: Chooser) {
    forall weights: seq<nat>, tick: nat :: |weights| > 0 ==> pick(weights, tick) < |weights|
  }

  /** Draw number `tick`: one weighted selection from the parallel lists `values` and `weights`. */
  function Select<V>(values: seq<V>, weights: seq<nat>, pick: Chooser, tick: nat): (r: Result<V>)
    requires |values| == |weights| && ValidChooser(pick)
    ensures r.Err? <==> values == []
    ensures r.Ok? ==> r.value in values
  {
    if weights == [] then Err(EmptyDistribution) else Ok(values[pick(weights, tick)])
  }

  /** The word spelled by its syllables, each appended to the end of the word built so far. */
  function Concat(fragments: seq<string>): (word: string)
    ensures fragments == [] ==> word == ""
    ensures |fragments| == 1 ==> word == fragments[0]
  {
    if fragments == [] then ""
    else Concat(fragments[..|fragments| - 1]) + fragments[|fragments| - 1]
  }

  /** Joining is without separator and in order: the join of two runs of syllables is the join of the first followed by the join of the second. */
  lemma {:induction false} ConcatAppend(first: seq<string>, second: seq<string>)
    ensures Concat(first + second) == Concat(first) + Concat(second)
    decreases |second|
  {
    if second == [] {
      assert first + second == first;
    } else {
      var init := second[..|second| - 1];
      ConcatAppend(first, init);
      assert (first + second)[..|first + second| - 1] == first + init;
    }
  }

  /** The number of syllables drawn for all the words of a plan. */
  function SyllableDraws(plan: seq<seq<string>>): nat {
    if plan == [] then 0
    else SyllableDraws(plan[..|plan| - 1]) + |plan[|plan| - 1]|
  }

  /**
   * The syllables of one word of a plan: all from the syllable list, and as many as the
   * override says or, without an override, a number taken from the syllable-count list.
   */
  ghost predicate FromTables(data: LingoData, syllables: Option<nat>, fragments: seq<string>) {
    && (forall j :: 0 <= j < |fragments| ==> fragments[j] in data.syllables)
    && match syllables
       case Some(k) => |fragments| == k
       case None => |fragments| in data.syllableCounts
  }

  /** The first `k` syllables of a word whose first syllable is draw number `tick`. */
  function Fragments(data: LingoData, k: nat, pick: Chooser, tick: nat): (r: Result<seq<string>>)
    requires data.Valid() && ValidChooser(pick)
    ensures r.Err? <==> k > 0 && data.syllables == []
    ensures r.Ok? ==> |r.value| == k && forall j :: 0 <= j < k ==> r.value[j] in data.syllables
    decreases k
  {
    if k == 0 then Ok([])
    else
      match Fragments(data, k - 1, pick, tick)
      case Err(e) => Err(e)
      case Ok(fragments) =>
        match Select(data.syllables, data.frequencies, pick, tick + k - 1)
        case Err(e) => Err(e)
        case Ok(syllable) => Ok(fragments + [syllable])
  }

  /** Syllable j of a word is the j-th draw made for it: the syllables keep the order they were drawn in. */
  lemma {:induction false} FragmentsInDrawOrder(data: LingoData, k: nat, pick: Chooser, tick: nat)
    requires data.Valid() && ValidChooser(pick)
    requires data.syllables != []
    ensures Fragments(data, k, pick, tick).Ok?
    ensures forall j :: 0 <= j < k ==>
              Fragments(data, k, pick, tick).value[j] == data.syllables[pick(data.frequencies, tick + j)]
  {
    if k > 0 {
      FragmentsInDrawOrder(data, k - 1, pick, tick);
    }
  }

  /**
   * One word, its first draw being number `tick`: its syllables and the number of the next draw.
   * Without an override one draw picks the syllable count; with one, the count list is not consulted.
   */
  function DrawWord(data: LingoData, syllables: Option<nat>, pick: Chooser, tick: nat): (r: Result<(seq<string>, nat)>)
    requires data.Valid() && ValidChooser(pick)
    ensures r.Ok? ==> FromTables(data, syllables, r.value.0)
    ensures r.Ok? ==> r.value.1 == tick + (if syllables.None? then 1 else 0) + |r.value.0|
    ensures syllables.Some? ==> (r.Err? <==> syllables.value > 0 && data.syllables == [])
    ensures syllables.None? && data.syllableCounts == [] ==> r.Err?
    ensures data.syllables != [] && (syllables.Some? || data.syllableCounts != []) ==> r.Ok?
  {
    match syllables
    case Some(k) =>
      (match Fragments(data, k, pick, tick)
       case Err(e) => Err(e)
       case Ok(fragments) => Ok((fragments, tick + k)))
    case None =>
      match Select(data.syllableCounts, data.syllableCountFrequencies, pick, tick)
      case Err(e) => Err(e)
      case Ok(k) =>
        match Fragments(data, k, pick, tick + 1)
        case Err(e) => Err(e)
        case Ok(fragments) => Ok((fragments, tick + 1 + k))
  }

  /**
   * The first `n` words, drawn from draw number 0 on: the syllables of each word and the number
   * of draws made. A failed draw fails the whole request.
   */
  function Plan(data: LingoData, n: nat, syllables: Option<nat>, pick: Chooser): (r: Result<(seq<seq<string>>, nat)>)
    requires data.Valid() && ValidChooser(pick)
    ensures r.Ok? ==> |r.value.0| == n && forall i :: 0 <= i < n ==> FromTables(data, syllables, r.value.0[i])
    ensures r.Ok? ==> r.value.1 == (if syllables.None? then n else 0) + SyllableDraws(r.value.0)
    ensures n == 0 ==> r == Ok(([], 0))
    ensures syllables.Some? ==> (r.Err? <==> n > 0 && syllables.value > 0 && data.syllables == [])
    ensures syllables.None? && data.syllableCounts == [] && n > 0 ==> r.Err?
    ensures data.syllables != [] && (syllables.Some? || data.syllableCounts != []) ==> r.Ok?
    decreases n
  {
    if n == 0 then Ok(([], 0))
    else
      match Plan(data, n - 1, syllables, pick)
      case Err(e) => Err(e)
      case Ok((plan, tick)) =>
        match DrawWord(data, syllables, pick, tick)
        case Err(e) => Err(e)
        case Ok((fragments, next)) =>
          assert (plan + [fragments])[..n - 1] == plan;
          Ok((plan + [fragments], next))
  }

  /** The words of a plan, each spelled from its syllables, in plan order. */
  function Spell(plan: seq<seq<string>>): (words: seq<string>)
    ensures |words| == |plan|
    ensures forall j :: 0 <= j < |plan| ==> words[j] == Concat(plan[j])
  {
    if plan == [] then []
    else Spell(plan[..|plan| - 1]) + [Concat(plan[|plan| - 1])]
  }

  /** The words a request produces: each planned word spelled out, in the order generated. */
  function Generate(data: LingoData, query: Query, pick: Chooser): (r: Result<seq<string>>)
    requires data.Valid() && ValidChooser(pick)
    ensures r.Ok? ==> |r.value| == WordCount(query)
    ensures WordCount(query) == 0 ==> r == Ok([])
    ensures data.syllables != [] && (query.syllables.Some? || data.syllableCounts != []) ==> r.Ok?
    ensures query.syllables.Some? ==>
              (r.Err? <==> WordCount(query) > 0 && query.syllables.value > 0 && data.syllables == [])
    ensures query.syllables.None? && data.syllableCounts == [] && WordCount(query) > 0 ==> r.Err?
  {
    match Plan(data, WordCount(query), query.syllables, pick)
    case Err(e) => Err(e)
    case Ok((plan, _)) => Ok(Spell(plan))
  }

  /**
   * One iteration of `makeLingo`'s outer loop, its first draw being number `tick`: the syllable
   * count is the override or, without one, a draw from the syllable-count list; then the inner
   * loop spells the word. Gives the word, the next draw number and (ghost) the syllables drawn.
   */
  method NextWord(data: LingoData, syllables: Option<nat>, pick: Chooser, tick: nat)
    returns (r: Result<(string, nat)>, ghost fragments: seq<string>)
    requires data.Valid() && ValidChooser(pick)
    ensures r.Err? <==> DrawWord(data, syllables, pick, tick).Err?
    ensures r.Ok? ==> && DrawWord(data, syllables, pick, tick) == Ok((fragments, r.value.1))
                      && r.value.0 == Concat(fragments)
  {
    match syllables {
      case Some(k) =>
        r, fragments := DrawSyllables(data, k, pick, tick);
      case None =>
        var drawn := Select(data.syllableCounts, data.syllableCountFrequencies, pick, tick);
        if drawn.Err? {
          return Err(drawn.error), [];
        }
        r, fragments := DrawSyllables(data, drawn.value, pick, tick + 1);
    }
  }

  /**
   * The inner loop of `makeLingo`: `count` syllables drawn from draw number `first` on, each
   * appended to the word. Gives the word, the next draw number and (ghost) the syllables drawn.
   */
  method DrawSyllables(data: LingoData, count: nat, pick: Chooser, first: nat)
    returns (r: Result<(string, nat)>, ghost fragments: seq<string>)
    requires data.Valid() && ValidChooser(pick)
    ensures r.Err? <==> Fragments(data, count, pick, first).Err?
    ensures r.Ok? ==> && Fragments(data, count, pick, first) == Ok(fragments)
                      && r.value == (Concat(fragments), first + count)
  {
    var next := first;
    var word := "";
    fragments := [];
    for s := 0 to count
      invariant Fragments(data, s, pick, first) == Ok(fragments)
      invariant word == Concat(fragments)
      invariant next == first + s
    {
      var syllable := Select(data.syllables, data.frequencies, pick, next);
      if syllable.Err? {
        return Err(syllable.error), fragments;
      }
      FragmentsStep(data, s, pick, first);
      ConcatSnoc(fragments, syllable.value);
      word := word + syllable.value;
      fragments := fragments + [syllable.value];
      next := next + 1;
    }
    r := Ok((word, next));
  }

  /** Drawing one more syllable appends draw number `tick + k` to the first `k`, or fails with it. */
  lemma FragmentsStep(data: LingoData, k: nat, pick: Chooser, tick: nat)
    requires data.Valid() && ValidChooser(pick)
    ensures Fragments(data, k + 1, pick, tick)
            == match Fragments(data, k, pick, tick)
               case Err(e) => Err(e)
               case Ok(fragments) =>
                 match Select(data.syllables, data.frequencies, pick, tick + k)
                 case Err(e) => Err(e)
                 case Ok(syllable) => Ok(fragments + [syllable])
  {
  }

  /** Appending one syllable to a run appends it to the word. */
  lemma ConcatSnoc(fragments: seq<string>, syllable: string)
    ensures Concat(fragments + [syllable]) == Concat(fragments) + syllable
  {
    assert (fragments + [syllable])[..|fragments|] == fragments;
  }

  /**
   * `makeLingo`: one word per iteration of the outer loop, appended to the list, as many words
   * as requested (100 by default). The result is `Generate`'s.
   */
  method MakeLingo(data: LingoData, query: Query, pick: Chooser) returns (r: Result<seq<string>>)
    requires data.Valid() && ValidChooser(pick)
    ensures r == Generate(data, query, pick)
    ensures r.Ok? ==> |r.value| == WordCount(query)
  {
    var words: seq<string> := [];
    ghost var plan: seq<seq<string>> := [];
    var tick: nat := 0;
    var n := WordCount(query);
    for i := 0 to n
      invariant Plan(data, i, query.syllables, pick) == Ok((plan, tick))
      invariant words == Spell(plan)
    {
      var drawn: Result<(string, nat)>;
      ghost var fragments: seq<string>;
      drawn, fragments := NextWord(data, query.syllables, pick, tick);
      PlanStep(data, i, query.syllables, pick);
      if drawn.Err? {
        PlanFailsFrom(data, i + 1, n, query.syllables, pick);
        return Err(drawn.error);
      }
      SpellSnoc(plan, fragments);
      words := words + [drawn.value.0];
      plan := plan + [fragments];
      tick := drawn.value.1;
    }
    r := Ok(words);
  }

  /** Planning one more word extends the plan by the next drawn word, or fails with that draw. */
  lemma PlanStep(data: LingoData, i: nat, syllables: Option<nat>, pick: Chooser)
    requires data.Valid() && ValidChooser(pick)
    requires Plan(data, i, syllables, pick).Ok?
    ensures var (plan, tick) := Plan(data, i, syllables, pick).value;
      match DrawWord(data, syllables, pick, tick)
      case Err(_) => Plan(data, i + 1, syllables, pick).Err?
      case Ok((fragments, next)) => Plan(data, i + 1, syllables, pick) == Ok((plan + [fragments], next))
  {
  }

  /**
   * Words are only ever appended: the plan for `m` words is the start of the plan for any
   * larger count, and a failure among the first `m` words fails every larger request.
   */
  lemma {:induction false} PlanPrefix(data: LingoData, m: nat, n: nat, syllables: Option<nat>, pick: Chooser)
    requires data.Valid() && ValidChooser(pick)
    requires m <= n
    ensures Plan(data, n, syllables, pick).Ok? ==>
              && Plan(data, m, syllables, pick).Ok?
              && Plan(data, m, syllables, pick).value.0 == Plan(data, n, syllables, pick).value.0[..m]
    decreases n
  {
    if m < n {
      PlanPrefix(data, m, n - 1, syllables, pick);
      var r := Plan(data, n, syllables, pick);
      if r.Ok? {
        var prev := Plan(data, n - 1, syllables, pick);
        assert prev.Ok?;
        assert prev.value.0 == r.value.0[..n - 1];
        assert r.value.0[..n - 1][..m] == r.value.0[..m];
      }
    }
  }

  /** Once draw-failure happens for the first `m` words, every request for more words fails too. */
  lemma {:induction false} PlanFailsFrom(data: LingoData, m: nat, n: nat, syllables: Option<nat>, pick: Chooser)
    requires data.Valid() && ValidChooser(pick)
    requires m <= n && Plan(data, m, syllables, pick).Err?
    ensures Plan(data, n, syllables, pick).Err?
  {
    PlanPrefix(data, m, n, syllables, pick);
  }

  /** The words a request for `m` words gets are the first `m` words of any larger request. */
  lemma GeneratePrefix(data: LingoData, m: nat, n: nat, syllables: Option<nat>, pick: Chooser)
    requires data.Valid() && ValidChooser(pick)
    requires m <= n
    ensures Generate(data, Query(Some(n), syllables), pick).Ok? ==>
              && Generate(data, Query(Some(m), syllables), pick).Ok?
              && Generate(data, Query(Some(m), syllables), pick).value
                 == Generate(data, Query(Some(n), syllables), pick).value[..m]
  {
    PlanPrefix(data, m, n, syllables, pick);
    var long := Plan(data, n, syllables, pick);
    if long.Ok? {
      SpellPrefix(long.value.0, m);
    }
  }

  /** Spelling a plan with one more word appends that word's spelling. */
  lemma SpellSnoc(plan: seq<seq<string>>, fragments: seq<string>)
    ensures Spell(plan + [fragments]) == Spell(plan) + [Concat(fragments)]
  {
    assert (plan + [fragments])[..|plan|] == plan;
  }

  /** Spelling the first `m` words of a plan gives the first `m` spelled words. */
  lemma SpellPrefix(plan: seq<seq<string>>, m: nat)
    requires m <= |plan|
    ensures Spell(plan[..m]) == Spell(plan)[..m]
  {
  }

  /** `word` is the concatenation of syllables drawn as one word of a plan may draw them. */
  ghost predicate SpelledFromTables(data: LingoData, syllables: Option<nat>, word: string) {
    exists fragments :: FromTables(data, syllables, fragments) && Concat(fragments) == word
  }

  /**
   * Every generated word is the concatenation of syllables from the syllable list, exactly `k` of
   * them under an override `k` and otherwise as many as an entry of the syllable-count list.
   */
  lemma WordsAreSyllableConcatenations(data: LingoData, query: Query, pick: Chooser)
    requires data.Valid() && ValidChooser(pick)
    ensures Generate(data, query, pick).Ok? ==>
              forall i :: 0 <= i < |Generate(data, query, pick).value| ==>
                SpelledFromTables(data, query.syllables, Generate(data, query, pick).value[i])
  {
    var p := Plan(data, WordCount(query), query.syllables, pick);
    if p.Ok? {
      var words := Generate(data, query, pick).value;
      forall i | 0 <= i < |words|
        ensures SpelledFromTables(data, query.syllables, words[i])
      {
        var fragments := p.value.0[i];
        assert FromTables(data, query.syllables, fragments) && Concat(fragments) == words[i];
      }
    }
  }

  /** An override of 0 syllables makes every word empty and never fails, whatever the tables hold. */
  lemma FixedZeroGivesEmptyWords(data: LingoData, n: nat, pick: Chooser)
    requires data.Valid() && ValidChooser(pick)
    ensures Generate(data, Query(Some(n), Some(0)), pick) == Ok(seq(n, i => ""))
  {
    var p := Plan(data, n, Some(0), pick);
    assert p.Ok?;
    var plan := p.value.0;
    forall i | 0 <= i < n
      ensures Concat(plan[i]) == ""
    {
      assert plan[i] == [];
    }
    assert Generate(data, Query(Some(n), Some(0)), pick).value
           == Spell(plan)
           == seq(n, i => "");
  }

  /** Drawing a word's syllables reads only the syllable list and its weights. */
  lemma {:induction false} FragmentsReadOnlySyllables(data: LingoData, other: LingoData, k: nat, pick: Chooser, tick: nat)
    requires data.Valid() && other.Valid() && ValidChooser(pick)
    requires data.syllables == other.syllables && data.frequencies == other.frequencies
    ensures Fragments(data, k, pick, tick) == Fragments(other, k, pick, tick)
  {
    if k > 0 {
      FragmentsReadOnlySyllables(data, other, k - 1, pick, tick);
    }
  }

  /** Under an override, the plan does not depend on the syllable-count list or its weights. */
  lemma {:induction false} FixedCountIgnoresCountTable(data: LingoData, other: LingoData, n: nat, k: nat, pick: Chooser)
    requires data.Valid() && other.Valid() && ValidChooser(pick)
    requires data.syllables == other.syllables && data.frequencies == other.frequencies
    ensures Plan(data, n, Some(k), pick) == Plan(other, n, Some(k), pick)
  {
    if n > 0 {
      FixedCountIgnoresCountTable(data, other, n - 1, k, pick);
      var p := Plan(data, n - 1, Some(k), pick);
      if p.Ok? {
        FragmentsReadOnlySyllables(data, other, k, pick, p.value.1);
      }
    }
  }

  /**
   * Under an override `k`, word i is made of draws i*k to i*k+k-1, in that order: the words keep
   * the order they were generated in, and each word's syllables the order they were drawn in.
   */
  lemma {:induction false} FixedCountDrawOrder(data: LingoData, n: nat, k: nat, pick: Chooser)
    requires data.Valid() && ValidChooser(pick)
    requires data.syllables != []
    ensures Plan(data, n, Some(k), pick).Ok?
    ensures Plan(data, n, Some(k), pick).value.1 == n * k
    ensures forall i, j :: 0 <= i < n && 0 <= j < k ==>
              Plan(data, n, Some(k), pick).value.0[i][j] == data.syllables[pick(data.frequencies, i * k + j)]
  {
    FixedCountDraws(data, n, k, pick);
    if n > 0 {
      FixedCountDrawOrder(data, n - 1, k, pick);
      var (plan, tick) := Plan(data, n - 1, Some(k), pick).value;
      FragmentsInDrawOrder(data, k, pick, tick);
      assert Plan(data, n, Some(k), pick).value.0 == plan + [Fragments(data, k, pick, tick).value];
    }
  }

  /**
   * Under an override `k`, with syllables to draw from, `n` words take exactly `n * k` draws.
   * The draw-count half of `FixedCountDrawOrder`, proved on its own to keep each induction small.
   */
  lemma {:induction false} FixedCountDraws(data: LingoData, n: nat, k: nat, pick: Chooser)
    requires data.Valid() && ValidChooser(pick)
    requires data.syllables != []
    ensures Plan(data, n, Some(k), pick).Ok?
    ensures Plan(data, n, Some(k), pick).value.1 == n * k
  {
    if n > 0 {
      FixedCountDraws(data, n - 1, k, pick);
      assert (n - 1) * k + k == n * k;
    }
  }

  /**
   * Without an override, a word's syllable count is the chooser's answer at the word's own first
   * draw, and its syllables are the draws that follow, in order: the count is chosen afresh.
   */
  lemma DefaultWordDraws(data: LingoData, pick: Chooser, tick: nat)
    requires data.Valid() && ValidChooser(pick)
    requires data.syllables != [] && data.syllableCounts != []
    ensures DrawWord(data, None, pick, tick).Ok?
    ensures |DrawWord(data, None, pick, tick).value.0|
            == data.syllableCounts[pick(data.syllableCountFrequencies, tick)]
    ensures forall j :: 0 <= j < |DrawWord(data, None, pick, tick).value.0| ==>
              DrawWord(data, None, pick, tick).value.0[j] == data.syllables[pick(data.frequencies, tick + 1 + j)]
  {
    var k := data.syllableCounts[pick(data.syllableCountFrequencies, tick)];
    FragmentsInDrawOrder(data, k, pick, tick + 1);
  }

  /**
   * Word `i` of a plan is the word `DrawWord` draws from the draw number reached after the first
   * `i` words, and it ends at the draw number reached after `i + 1` words.
   */
  lemma PlanWordAt(data: LingoData, n: nat, i: nat, syllables: Option<nat>, pick: Chooser)
    requires data.Valid() && ValidChooser(pick)
    requires i < n && Plan(data, n, syllables, pick).Ok?
    ensures Plan(data, i, syllables, pick).Ok? && Plan(data, i + 1, syllables, pick).Ok?
    ensures DrawWord(data, syllables, pick, Plan(data, i, syllables, pick).value.1)
            == Ok((Plan(data, n, syllables, pick).value.0[i], Plan(data, i + 1, syllables, pick).value.1))
  {
    PlanPrefix(data, i + 1, n, syllables, pick);
    PlanStep(data, i, syllables, pick);
    assert Plan(data, n, syllables, pick).value.0[..i + 1][i] == Plan(data, n, syllables, pick).value.0[i];
  }

  /**
   * With tables built by `loadData` (every syllable count positive) and no override, a non-empty
   * request fails exactly when the syllable list or the syllable-count list is empty.
   */
  lemma {:induction false} LoadedDataFailsOnlyWhenEmpty(syllableRows: seq<Row<string>>, countRows: seq<Row<nat>>, query: Query, pick: Chooser)
    requires ValidChooser(pick)
    requires query.syllables.None? && WordCount(query) > 0
    ensures var data := LoadData(syllableRows, countRows);
      Generate(data, query, pick).Err? <==> data.syllables == [] || data.syllableCounts == []
  {
    var data := LoadData(syllableRows, countRows);
    if data.syllables == [] && data.syllableCounts != [] {
      var k := Select(data.syllableCounts, data.syllableCountFrequencies, pick, 0).value;
      assert k > 0;
      assert DrawWord(data, None, pick, 0).Err?;
      assert Plan(data, 1, None, pick).Err?;
      PlanFailsFrom(data, 1, WordCount(query), None, pick);
    }
  }

  /** A chooser that always picks the first entry of the list. */
  function AlwaysFirst(weights: seq<nat>, tick: nat): nat {
    0
  }

  /** Syllables "ba" and "na", equally weighted; every word two syllables long. */
  const BaNa := LingoData(["ba", "na"], [1, 1], [2], [1])

  /** Under `AlwaysFirst`, every word of the worked case is two draws of "ba", after one count draw. */
  lemma AlwaysFirstWord(tick: nat)
    ensures DrawWord(BaNa, None, AlwaysFirst, tick) == Ok((["ba", "ba"], tick + 3))
  {
    var pick: Chooser := AlwaysFirst;
    assert ValidChooser(pick);
    assert Select(BaNa.syllables, BaNa.frequencies, pick, tick + 1) == Ok("ba");
    assert Select(BaNa.syllables, BaNa.frequencies, pick, tick + 2) == Ok("ba");
    assert Fragments(BaNa, 0, pick, tick + 1) == Ok([]);
    assert [] + ["ba"] == ["ba"] && ["ba"] + ["ba"] == ["ba", "ba"];
    assert Fragments(BaNa, 1, pick, tick + 1) == Ok(["ba"]);
    assert Fragments(BaNa, 2, pick, tick + 1) == Ok(["ba", "ba"]);
    assert Select(BaNa.syllableCounts, BaNa.syllableCountFrequencies, pick, tick) == Ok(2);
  }

  /** Under `AlwaysFirst`, the worked case plans three words of two "ba" draws each, nine draws in all. */
  lemma AlwaysFirstPlan()
    ensures Plan(BaNa, 3, None, AlwaysFirst) == Ok(([["ba", "ba"], ["ba", "ba"], ["ba", "ba"]], 9))
  {
    var pick: Chooser := AlwaysFirst;
    assert ValidChooser(pick);
    var w := ["ba", "ba"];
    assert Plan(BaNa, 1, None, pick) == Ok(([w], 3)) by {
      AlwaysFirstWord(0);
      assert [] + [w] == [w];
    }
    assert Plan(BaNa, 2, None, pick) == Ok(([w, w], 6)) by {
      AlwaysFirstWord(3);
      assert [w] + [w] == [w, w];
    }
    AlwaysFirstWord(6);
    assert [w, w] + [w] == [w, w, w];
  }

  /** The worked case: three words requested, the words are "baba", "baba", "baba". */
  lemma AlwaysFirstExample()
    ensures Generate(BaNa, Query(Some(3), None), AlwaysFirst) == Ok(["baba", "baba", "baba"])
  {
    var pick: Chooser := AlwaysFirst;
    assert ValidChooser(pick);
    AlwaysFirstPlan();
    BabaSpelling();
  }

  /** Three words of syllables "ba", "ba" spell "baba" three times. */
  lemma BabaSpelling()
    ensures Spell([["ba", "ba"], ["ba", "ba"], ["ba", "ba"]]) == ["baba", "baba", "baba"]
  {
    var w := ["ba", "ba"];
    assert Concat(w) == "baba" by {
      ConcatSnoc(["ba"], "ba");
      assert ["ba"] + ["ba"] == w;
    }
  }
}
