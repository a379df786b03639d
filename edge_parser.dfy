/** The boundary-scoring chunker `Parser` of budoux-edge: a table of feature
    weights (feature group -> feature key -> weight) and a scan that starts a
    new chunk before every position whose boundary score is strictly positive. */
module EdgeParser {
  import opened JsMap
  import opened JsString
  import opened Segmentation

  /** A weight; the source's doubles are modelled as exact reals. */
  type Weight = real

  /** The weight table as the parser holds it: a Map of Maps. */
  type Table = Entries<Entries<Weight>>

  /** A JavaScript object `{ [key: string]: { [key: string]: number } }`, given by
      its entries (and each inner object by its entries). */
  type ModelObject = Entries<Entries<Weight>>

  datatype Parser = Parser(model: Table)

  // ---------------------------------------------------------------------------
  // Construction and lookup

  /** `new Parser(model)`: every group object and the outer object become Maps. */
  function NewParser(obj: ModelObject): (p: Parser)
    ensures Keys(p.model) == Keys(obj)
  {
    var groups := seq(|obj|, j requires 0 <= j < |obj| => (obj[j].0, FromEntries(obj[j].1)));
    assert Keys(groups) == Keys(obj) by {
      forall k | k in Keys(obj) ensures k in Keys(groups) {
        var j :| 0 <= j < |obj| && obj[j].0 == k;
        assert groups[j].0 == k;
      }
    }
    Parser(FromEntries(groups))
  }

  /** `model.get(group)?.get(key) || 0`: the weight, or 0 when the group or the key
      is absent. */
  function Lookup(m: Table, group: string, key: string): Weight
  {
    match Get(m, group)
    case None => 0.0
    case Some(g) =>
      match Get(g, key)
      case None => 0.0
      case Some(w) => w
    }

  predicate DistinctObject(obj: ModelObject)
  {
    DistinctKeys(obj) && forall j :: 0 <= j < |obj| ==> DistinctKeys(obj[j].1)
  }

  /** The constructor keeps every group, every key and every weight, in order. */
  lemma ConstructorKeepsTable(obj: ModelObject)
    ensures DistinctObject(obj) ==> NewParser(obj).model == obj
  {
    if DistinctObject(obj) {
      var groups := seq(|obj|, j requires 0 <= j < |obj| => (obj[j].0, FromEntries(obj[j].1)));
      forall j | 0 <= j < |obj| ensures groups[j] == obj[j] {
        FromDistinctEntries(obj[j].1);
      }
      assert groups == obj;
      FromDistinctEntries(obj);
    }
  }

  /** A lookup of a (group, key) pair present in the object gives its weight back;
      a group or key the object lacks gives 0. */
  lemma LookupAfterConstruction(obj: ModelObject, group: string, key: string)
    requires DistinctObject(obj)
    ensures forall j, k :: 0 <= j < |obj| && 0 <= k < |obj[j].1| && obj[j].0 == group && obj[j].1[k].0 == key
              ==> Lookup(NewParser(obj).model, group, key) == obj[j].1[k].1
    ensures group !in Keys(obj) ==> Lookup(NewParser(obj).model, group, key) == 0.0
    ensures forall j :: 0 <= j < |obj| && obj[j].0 == group && key !in Keys(obj[j].1)
              ==> Lookup(NewParser(obj).model, group, key) == 0.0
  {
    ConstructorKeepsTable(obj);
    forall j, k | 0 <= j < |obj| && 0 <= k < |obj[j].1| && obj[j].0 == group && obj[j].1[k].0 == key
      ensures Lookup(obj, group, key) == obj[j].1[k].1
    {
      GetDistinct(obj, j);
      GetDistinct(obj[j].1, k);
    }
    forall j | 0 <= j < |obj| && obj[j].0 == group
      ensures Get(obj, group) == Some(obj[j].1)
    {
      GetDistinct(obj, j);
    }
  }

  // ---------------------------------------------------------------------------
  // Base score

  /** `sum(xs)`: the total of a list of weights, added left to right. */
  function Sum(xs: seq<Weight>): Weight
  {
    if xs == [] then 0.0 else Sum(xs[..|xs| - 1]) + xs[|xs| - 1]
  }

  lemma {:induction false} SumAppend(xs: seq<Weight>, ys: seq<Weight>)
    ensures Sum(xs + ys) == Sum(xs) + Sum(ys)
    decreases |ys|
  {
    if ys == [] {
      assert xs + ys == xs;
    } else {
      var zs := xs + ys;
      assert zs[..|zs| - 1] == xs + ys[..|ys| - 1];
      assert zs[|zs| - 1] == ys[|ys| - 1];
      SumAppend(xs, ys[..|ys| - 1]);
    }
  }

  /** `[...model.values()].map((group) => [...group.values()]).flat()`. */
  function AllWeights(m: Table): seq<Weight>
  {
    if m == [] then [] else AllWeights(m[..|m| - 1]) + Values(m[|m| - 1].1)
  }

  /** `-0.5 * sum(AllWeights(model))`. */
  function BaseScore(p: Parser): Weight
  {
    -0.5 * Sum(AllWeights(p.model))
  }

  /** The sum of one group's weights. */
  function GroupTotal(g: Entries<Weight>): Weight
  {
    Sum(Values(g))
  }

  /** The base score is minus one half of the grand total, taken group by group:
      adding a group to the end of the table lowers it by half that group's total. */
  lemma BaseScoreByGroup(m: Table, group: string, g: Entries<Weight>)
    ensures BaseScore(Parser(m + [(group, g)])) == BaseScore(Parser(m)) - 0.5 * GroupTotal(g)
  {
    var m' := m + [(group, g)];
    assert m'[..|m'| - 1] == m;
    SumAppend(AllWeights(m), Values(g));
  }

  // ---------------------------------------------------------------------------
  // Boundary score

  /** A feature template: the group it looks up and the window [i + from, i + to)
      of the sentence, relative to the boundary position i, that gives the key. */
  datatype Template = Template(group: string, from: int, to: int)

  /** The 13 windows: six unigrams, three bigrams, four trigrams. */
  const Templates: seq<Template> := [
    Template("UW1", -3, -2), Template("UW2", -2, -1), Template("UW3", -1, 0),
    Template("UW4", 0, 1), Template("UW5", 1, 2), Template("UW6", 2, 3),
    Template("BW1", -2, 0), Template("BW2", -1, 1), Template("BW3", 0, 2),
    Template("TW1", -3, 0), Template("TW2", -2, 1), Template("TW3", -1, 2),
    Template("TW4", 0, 3)
  ]

  /** The weight one template contributes at position i. */
  function Feature(m: Table, s: string, i: int, t: Template): Weight
  {
    Lookup(m, t.group, Slice(s, i + t.from, i + t.to))
  }

  /** The weights of templates k, k + 1, ..., 12 at position i. */
  function FeatureSum(m: Table, s: string, i: int, k: nat): Weight
    decreases |Templates| - k
  {
    if k >= |Templates| then 0.0 else Feature(m, s, i, Templates[k]) + FeatureSum(m, s, i, k + 1)
  }

  /** The boundary score before position i: the base score plus the weight of
      every template. */
  function Score(p: Parser, s: string, i: int): Weight
  {
    BaseScore(p) + FeatureSum(p.model, s, i, 0)
  }

  lemma FeatureWindow(m: Table, s: string, i: int, t: Template, lo: int, hi: int)
    requires i + t.from == lo && i + t.to == hi
    ensures Feature(m, s, i, t) == Lookup(m, t.group, Slice(s, lo, hi))
  {
  }

  lemma FeatureSumStep(m: Table, s: string, i: int, k: nat, group: string, lo: int, hi: int)
    requires k < |Templates| && Templates[k] == Template(group, lo - i, hi - i)
    ensures FeatureSum(m, s, i, k) == Lookup(m, group, Slice(s, lo, hi)) + FeatureSum(m, s, i, k + 1)
  {
    var t := Templates[k];
    assert t == Template(group, lo - i, hi - i);
    FeatureWindow(m, s, i, t, lo, hi);
  }

  /** The score as the source writes it out, one lookup per template, with its own
      offsets: the 13 straight-line additions compute the table's sum. */
  lemma ScoreUnrolled(p: Parser, s: string, i: int)
    ensures Score(p, s, i) ==
      BaseScore(p)
      + Lookup(p.model, "UW1", Slice(s, i - 3, i - 2))
      + Lookup(p.model, "UW2", Slice(s, i - 2, i - 1))
      + Lookup(p.model, "UW3", Slice(s, i - 1, i))
      + Lookup(p.model, "UW4", Slice(s, i, i + 1))
      + Lookup(p.model, "UW5", Slice(s, i + 1, i + 2))
      + Lookup(p.model, "UW6", Slice(s, i + 2, i + 3))
      + Lookup(p.model, "BW1", Slice(s, i - 2, i))
      + Lookup(p.model, "BW2", Slice(s, i - 1, i + 1))
      + Lookup(p.model, "BW3", Slice(s, i, i + 2))
      + Lookup(p.model, "TW1", Slice(s, i - 3, i))
      + Lookup(p.model, "TW2", Slice(s, i - 2, i + 1))
      + Lookup(p.model, "TW3", Slice(s, i - 1, i + 2))
      + Lookup(p.model, "TW4", Slice(s, i, i + 3))
  {
    var m := p.model;
    FeatureSumStep(m, s, i, 0, "UW1", i - 3, i - 2);
    FeatureSumStep(m, s, i, 1, "UW2", i - 2, i - 1);
    FeatureSumStep(m, s, i, 2, "UW3", i - 1, i);
    FeatureSumStep(m, s, i, 3, "UW4", i, i + 1);
    FeatureSumStep(m, s, i, 4, "UW5", i + 1, i + 2);
    FeatureSumStep(m, s, i, 5, "UW6", i + 2, i + 3);
    FeatureSumStep(m, s, i, 6, "BW1", i - 2, i);
    FeatureSumStep(m, s, i, 7, "BW2", i - 1, i + 1);
    FeatureSumStep(m, s, i, 8, "BW3", i, i + 2);
    FeatureSumStep(m, s, i, 9, "TW1", i - 3, i);
    FeatureSumStep(m, s, i, 10, "TW2", i - 2, i + 1);
    FeatureSumStep(m, s, i, 11, "TW3", i - 1, i + 2);
    FeatureSumStep(m, s, i, 12, "TW4", i, i + 3);
  }

  /** In the middle of the sentence each window is the plain sub-sequence it names,
      of the length its template gives. */
  lemma WindowsInside(s: string, i: int, t: Template)
    requires t in Templates && 3 <= i && i + 3 <= |s|
    ensures Slice(s, i + t.from, i + t.to) == s[i + t.from..i + t.to]
    ensures |Slice(s, i + t.from, i + t.to)| == if t.group[0] == 'U' then 1 else if t.group[0] == 'B' then 2 else 3
  {
    assert -3 <= t.from < t.to <= 3;
    assert t.to - t.from == if t.group[0] == 'U' then 1 else if t.group[0] == 'B' then 2 else 3;
    SliceProperties(s, i + t.from, i + t.to);
  }

  /** Near the start a negative window start resolves to |s| + start, counted from
      the END of the sentence. At i = 1 the UW1 window `slice(-2, -1)` is the last
      code unit but one. A window that straddles position 0 is empty when the
      resolved start is not before its end: UW2 and BW1 at i = 1 and UW1 at i = 2
      always are, TW1 and TW2 at i = 1 and TW1 at i = 2 are once |s| >= 3, but in
      a two-unit sentence the TW1 and TW2 windows at i = 1 each hold one code unit
      of the sentence. */
  lemma WindowWrapsAtStart(s: string)
    requires |s| >= 2
    ensures Slice(s, 1 - 3, 1 - 2) == [s[|s| - 2]]
    ensures Slice(s, 1 - 2, 1 + 0) == []
    ensures Slice(s, 2 - 3, 2 - 2) == []
    ensures Slice(s, 1 - 2, 1 - 1) == []
    ensures |s| >= 3 ==> Slice(s, 1 - 3, 1 + 0) == [] && Slice(s, 1 - 2, 1 + 1) == []
    ensures |s| >= 3 ==> Slice(s, 2 - 3, 2 + 0) == []
    ensures |s| == 2 ==> Slice(s, 1 - 3, 1 + 0) == [s[0]]
    ensures |s| == 2 ==> Slice(s, 1 - 2, 1 + 1) == [s[1]]
  {
  }

  /** Near the end a window is cut short rather than emptied: at i = |s| - 2 the
      TW4 window holds the last two code units. */
  lemma WindowTruncatedAtEnd(s: string)
    requires |s| >= 3
    ensures Slice(s, (|s| - 2) + 0, (|s| - 2) + 3) == s[|s| - 2..]
  {
  }

  /** A template whose group the table lacks contributes nothing. */
  lemma {:induction false} FeaturesAbsent(m: Table, s: string, i: int, k: nat)
    requires forall j :: k <= j < |Templates| ==> Templates[j].group !in Keys(m)
    ensures FeatureSum(m, s, i, k) == 0.0
    decreases |Templates| - k
  {
    if k < |Templates| {
      FeaturesAbsent(m, s, i, k + 1);
    }
  }

  /** With none of the 13 feature groups in the table, every score is the base score. */
  lemma ScoreWithoutFeatureGroups(p: Parser, s: string, i: int)
    requires forall j :: 0 <= j < |Templates| ==> Templates[j].group !in Keys(p.model)
    ensures Score(p, s, i) == BaseScore(p)
  {
    FeaturesAbsent(p.model, s, i, 0);
  }

  // ---------------------------------------------------------------------------
  // Chunking

  /** Whether a new chunk starts before position i. */
  function Boundary(p: Parser, s: string): int -> bool
  {
    i => Score(p, s, i) > 0.0
  }

  /** Where `parse` starts a new chunk: every position of the sentence after the first
      whose score is strictly positive. */
  function Cuts(p: Parser, s: string): seq<int>
  {
    CutsWhere(Boundary(p, s), |s|)
  }

  /** What `parse` returns: no chunk at all for "", otherwise the sentence cut
      before every position of `Cuts`. */
  function Chunks(p: Parser, s: string): seq<string>
  {
    if s == [] then [] else Split(s, Cuts(p, s))
  }

  /** The score of position i as the loop body of `parse` adds it up: the base
      score, then the 13 window lookups in the order of the source. */
  method ScoreAt(p: Parser, m: Table, baseScore: Weight, sentence: string, i: int) returns (score: Weight)
    requires m == p.model && baseScore == BaseScore(p)
    ensures score == Score(p, sentence, i)
    ensures Boundary(p, sentence)(i) == (score > 0.0)
  {
    score := baseScore;
    score := score + Lookup(m, "UW1", Slice(sentence, i - 3, i - 2));
    score := score + Lookup(m, "UW2", Slice(sentence, i - 2, i - 1));
    score := score + Lookup(m, "UW3", Slice(sentence, i - 1, i));
    score := score + Lookup(m, "UW4", Slice(sentence, i, i + 1));
    score := score + Lookup(m, "UW5", Slice(sentence, i + 1, i + 2));
    score := score + Lookup(m, "UW6", Slice(sentence, i + 2, i + 3));
    score := score + Lookup(m, "BW1", Slice(sentence, i - 2, i));
    score := score + Lookup(m, "BW2", Slice(sentence, i - 1, i + 1));
    score := score + Lookup(m, "BW3", Slice(sentence, i, i + 2));
    score := score + Lookup(m, "TW1", Slice(sentence, i - 3, i));
    score := score + Lookup(m, "TW2", Slice(sentence, i - 2, i + 1));
    score := score + Lookup(m, "TW3", Slice(sentence, i - 1, i + 2));
    score := score + Lookup(m, "TW4", Slice(sentence, i, i + 3));
    ScoreUnrolled(p, sentence, i);
  }

  /** `parser.parse(sentence)`. */
  method Parse(p: Parser, sentence: string) returns (result: seq<string>)
    ensures result == Chunks(p, sentence)
  {
    if sentence == [] {
      return [];
    }
    result := [[sentence[0]]];
    assert sentence[..1] == [sentence[0]];
    var baseScore := BaseScore(p);
    var m := p.model;

    ghost var cut := Boundary(p, sentence);
    for i := 1 to |sentence|
      invariant result == Split(sentence[..i], CutsWhere(cut, i))
    {
      var score := ScoreAt(p, m, baseScore, sentence, i);
      ScanStep(sentence, cut, i, result);
      if score > 0.0 {
        result := result + [""];
      }
      result := AppendToLast(result, sentence[i]);
    }
    assert sentence[..|sentence|] == sentence;
  }

  // ---------------------------------------------------------------------------
  // Properties of the chunks

  /** Concatenating the chunks gives the sentence back, for every sentence. */
  lemma ChunksRoundTrip(p: Parser, s: string)
    ensures Concat(Chunks(p, s)) == s
  {
    if s != [] {
      SplitConcat(s, Cuts(p, s));
    }
  }

  /** There are no chunks only for "", no chunk is empty, and the first one starts
      with the first code unit. */
  lemma ChunksNonEmpty(p: Parser, s: string)
    ensures Chunks(p, s) == [] <==> s == []
    ensures forall j :: 0 <= j < |Chunks(p, s)| ==> |Chunks(p, s)[j]| > 0
    ensures s != [] ==> |Chunks(p, s)| > 0 && Chunks(p, s)[0][0] == s[0]
  {
    if s != [] {
      SplitNonEmpty(s, Cuts(p, s));
      SplitPiece(s, Cuts(p, s), 0);
    }
  }

  /** A chunk starts at position i (0 < i < |s|) exactly when the score there is
      strictly positive; a score of 0 or below keeps s[i] in the current chunk. */
  lemma ChunkStartsIff(p: Parser, s: string, i: int)
    requires 0 < i < |s|
    ensures i in Offsets(Chunks(p, s)) <==> Score(p, s, i) > 0.0
  {
    var cuts := Cuts(p, s);
    SplitOffsets(s, cuts);
    CutsWhereMember(Boundary(p, s), |s|, i);
    assert i in [0] + cuts <==> i in cuts;
    assert Boundary(p, s)(i) == (Score(p, s, i) > 0.0);
  }

  /** The chunks start at 0 and then at each position with a positive score. */
  lemma ChunkOffsets(p: Parser, s: string)
    requires s != []
    ensures Offsets(Chunks(p, s)) == [0] + Cuts(p, s)
  {
    SplitOffsets(s, Cuts(p, s));
  }

  /** The positions of s after the first whose score is strictly positive. */
  ghost function PositivePositions(p: Parser, s: string): set<int>
  {
    Satisfying(Boundary(p, s), |s|)
  }

  /** A non-empty sentence gives one chunk plus one per positive-score position. */
  lemma ChunkCount(p: Parser, s: string)
    requires s != []
    ensures |Chunks(p, s)| == 1 + |PositivePositions(p, s)|
  {
    CutsWhereCount(Boundary(p, s), |s|);
  }

  /** A single code unit is a single chunk. */
  lemma SingleUnit(p: Parser, s: string)
    requires |s| == 1
    ensures Chunks(p, s) == [s]
  {
  }

  /** When no score is positive, the whole sentence is one chunk. */
  lemma NoPositiveScore(p: Parser, s: string)
    requires s != []
    requires forall i :: 1 <= i < |s| ==> Score(p, s, i) <= 0.0
    ensures Chunks(p, s) == [s]
  {
    SplitNowhere(s, Boundary(p, s));
  }

  /** When every score is positive, every code unit is a chunk of its own. */
  lemma AllPositiveScores(p: Parser, s: string)
    requires forall i :: 1 <= i < |s| ==> Score(p, s, i) > 0.0
    ensures |Chunks(p, s)| == |s|
    ensures forall j :: 0 <= j < |s| ==> Chunks(p, s)[j] == [s[j]]
  {
    if s != [] {
      SplitEverywhere(s, Boundary(p, s));
    }
  }

  /** A table with none of the 13 feature groups (the empty table, say) decides by
      its base score alone: one chunk when it is 0 or below, and one chunk per code
      unit when it is positive. */
  lemma WithoutFeatureGroups(p: Parser, s: string)
    requires s != []
    requires forall j :: 0 <= j < |Templates| ==> Templates[j].group !in Keys(p.model)
    ensures BaseScore(p) <= 0.0 ==> Chunks(p, s) == [s]
    ensures BaseScore(p) > 0.0 ==>
      |Chunks(p, s)| == |s| && forall j :: 0 <= j < |s| ==> Chunks(p, s)[j] == [s[j]]
  {
    forall i | 1 <= i < |s| ensures Score(p, s, i) == BaseScore(p) {
      ScoreWithoutFeatureGroups(p, s, i);
    }
    if BaseScore(p) <= 0.0 {
      NoPositiveScore(p, s);
    } else {
      AllPositiveScores(p, s);
    }
  }

  // ---------------------------------------------------------------------------
  // Default parsers

  // The three bundled tables are not part of this model: each loader takes its
  // table as a parameter, and the parser it builds holds that table unchanged.

  /** `loadDefaultJapaneseParser()`. */
  function LoadDefaultJapaneseParser(jaModel: ModelObject): (p: Parser)
    ensures Keys(p.model) == Keys(jaModel)
    ensures DistinctObject(jaModel) ==> p.model == jaModel
  {
    ConstructorKeepsTable(jaModel);
    NewParser(jaModel)
  }

  /** `loadDefaultSimplifiedChineseParser()`. */
  function LoadDefaultSimplifiedChineseParser(zhHansModel: ModelObject): (p: Parser)
    ensures Keys(p.model) == Keys(zhHansModel)
    ensures DistinctObject(zhHansModel) ==> p.model == zhHansModel
  {
    ConstructorKeepsTable(zhHansModel);
    NewParser(zhHansModel)
  }

  /** `loadDefaultTraditionalChineseParser()`. */
  function LoadDefaultTraditionalChineseParser(zhHantModel: ModelObject): (p: Parser)
    ensures Keys(p.model) == Keys(zhHantModel)
    ensures DistinctObject(zhHantModel) ==> p.model == zhHantModel
  {
    ConstructorKeepsTable(zhHantModel);
    NewParser(zhHantModel)
  }

  /** `loadDefaultParsers()`: a Map from exactly the codes "ja", "zh-hans" and
      "zh-hant" to the parser of each. */
  function LoadDefaultParsers(jaModel: ModelObject, zhHansModel: ModelObject, zhHantModel: ModelObject)
    : (r: Entries<Parser>)
    ensures Keys(r) == {"ja", "zh-hans", "zh-hant"}
    ensures Get(r, "ja") == Some(LoadDefaultJapaneseParser(jaModel))
    ensures Get(r, "zh-hans") == Some(LoadDefaultSimplifiedChineseParser(zhHansModel))
    ensures Get(r, "zh-hant") == Some(LoadDefaultTraditionalChineseParser(zhHantModel))
  {
    var es := [
      ("ja", LoadDefaultJapaneseParser(jaModel)),
      ("zh-hans", LoadDefaultSimplifiedChineseParser(zhHansModel)),
      ("zh-hant", LoadDefaultTraditionalChineseParser(zhHantModel))
    ];
    assert Keys(es) == {"ja", "zh-hans", "zh-hant"} by {
      assert es[0].0 == "ja" && es[1].0 == "zh-hans" && es[2].0 == "zh-hant";
    }
    FromDistinctEntries(es);
    GetDistinct(es, 0);
    GetDistinct(es, 1);
    GetDistinct(es, 2);
    FromEntries(es)
  }
}
