/** Bigram mining over the dev examples (`extractBigrams` and
    `extractFeatures` in labelmaker/src/main.go): candidates from every
    adjacent token pair, deduplication by identity string, then a filter
    that keeps the candidates whose support lies in a window. */
module Mining {
  import opened Text
  import opened Issues
  import opened Features

  /** The bigrams `extractBigrams` produces for one field of one example:
      one per adjacent pair of space-separated tokens, in order. */
  function Bigrams(tag: string, f: Field, e: Example): seq<Feature>
  {
    var ws := Split(FieldText(f, e));
    seq(|ws| - 1, i requires 0 <= i < |ws| - 1 => Bigram(tag, f, ws[i], ws[i + 1]))
  }

  /** `extractBigrams`: fills a slice of `len(words) - 1` candidates by index. */
  method ExtractBigrams(tag: string, f: Field, e: Example) returns (grams: seq<Feature>)
    ensures grams == Bigrams(tag, f, e)
  {
    var words := Split(FieldText(f, e));
    var a := new Feature[|words| - 1];
    for i := 0 to a.Length
      invariant forall k :: 0 <= k < i ==> a[k] == Bigram(tag, f, words[k], words[k + 1])
    {
      a[i] := Bigram(tag, f, words[i], words[i + 1]);
    }
    grams := a[..];
  }

  /** A field yields one bigram fewer than it has tokens, which is exactly
      as many as it has spaces; a field without a space yields none. The
      i-th bigram is the pair of tokens i and i + 1. */
  lemma BigramsShape(tag: string, f: Field, e: Example)
    ensures |Bigrams(tag, f, e)| == |Split(FieldText(f, e))| - 1 == Occurrences(FieldText(f, e), Space)
    ensures forall i :: 0 <= i < |Bigrams(tag, f, e)| ==>
      var ws := Split(FieldText(f, e));
      Bigrams(tag, f, e)[i] == Bigram(tag, f, ws[i], ws[i + 1])
  {
  }

  /** Soundness of extraction: every bigram extracted from an example fires
      on that example. */
  lemma BigramsFire(tag: string, f: Field, e: Example)
    ensures forall g :: g in Bigrams(tag, f, e) ==> Predict(g, e) == 1.0
  {
    var ws := Split(FieldText(f, e));
    forall g | g in Bigrams(tag, f, e) ensures Predict(g, e) == 1.0 {
      var i :| 0 <= i < |ws| - 1 && g == Bigrams(tag, f, e)[i];
      assert PairAt(ws, i, g.w1, g.w2);
    }
  }

  /** The candidates one example contributes: its title bigrams, then its
      content bigrams. */
  function Candidates(e: Example): seq<Feature>
  {
    Bigrams("title", Title, e) + Bigrams("content", Content, e)
  }

  /** The concatenation of `f(x)` over the elements `x` of `xs`, in order. */
  function FlatMap<A, B>(xs: seq<A>, f: A -> seq<B>): seq<B>
  {
    if |xs| == 0 then [] else FlatMap(xs[..|xs| - 1], f) + f(xs[|xs| - 1])
  }

  /** An element is in a flat map exactly when one of the pieces holds it. */
  lemma {:induction false} FlatMapMember<A, B>(xs: seq<A>, f: A -> seq<B>, y: B)
    ensures y in FlatMap(xs, f) <==> exists i :: 0 <= i < |xs| && y in f(xs[i])
  {
    if |xs| > 0 {
      var n := |xs| - 1;
      var init := xs[..n];
      FlatMapMember(init, f, y);
      assert forall i :: 0 <= i < n ==> init[i] == xs[i];
    }
  }

  /** One more element appends its piece. */
  lemma FlatMapStep<A, B>(xs: seq<A>, f: A -> seq<B>, i: int)
    requires 0 <= i < |xs|
    ensures FlatMap(xs[..i + 1], f) == FlatMap(xs[..i], f) + f(xs[i])
  {
    assert xs[..i + 1][..i] == xs[..i];
  }

  /** Concatenation is associative; stated as a lemma so the map-building
      loop can regroup its candidates without a costly sequence comparison. */
  lemma ConcatAssoc<T>(a: seq<T>, b: seq<T>, c: seq<T>)
    ensures (a + b) + c == a + (b + c)
  {
  }

  /** All candidates of a sequence of examples, in the order the map-building
      loop visits them. */
  function AllCandidates(es: seq<Example>): seq<Feature>
  {
    FlatMap(es, Candidates)
  }

  /** A candidate is in `AllCandidates(es)` exactly when some example of `es`
      contributes it. */
  lemma AllCandidatesMember(es: seq<Example>, g: Feature)
    ensures g in AllCandidates(es) <==> exists i :: 0 <= i < |es| && g in Candidates(es[i])
  {
    FlatMapMember(es, Candidates, g);
  }

  /** The map `bigrams[gram.String()] = gram` builds from a sequence of
      candidates, later writes replacing earlier ones. */
  function KeyedByIdentity(gs: seq<Feature>): map<string, Feature>
  {
    if |gs| == 0 then map[]
    else KeyedByIdentity(gs[..|gs| - 1])[Identity(gs[|gs| - 1]) := gs[|gs| - 1]]
  }

  /** Recording one more candidate of a sequence `ts` after the
      candidates `done` and the first `j` of `ts`. */
  lemma KeyedByIdentityStep(done: seq<Feature>, ts: seq<Feature>, j: int)
    requires 0 <= j < |ts|
    ensures KeyedByIdentity(done + ts[..j + 1]) == KeyedByIdentity(done + ts[..j])[Identity(ts[j]) := ts[j]]
  {
    assert (done + ts[..j + 1])[..|done| + j] == done + ts[..j];
  }

  /** Every candidate's identity is a key, and every entry is a candidate
      stored under its own identity. */
  lemma {:induction false} KeyedByIdentityFacts(gs: seq<Feature>)
    ensures forall g :: g in gs ==> Identity(g) in KeyedByIdentity(gs)
    ensures forall k :: k in KeyedByIdentity(gs) ==>
      Identity(KeyedByIdentity(gs)[k]) == k && KeyedByIdentity(gs)[k] in gs
  {
    if |gs| > 0 {
      var init := gs[..|gs| - 1];
      KeyedByIdentityFacts(init);
      assert forall g :: g in gs ==> g in init || g == gs[|gs| - 1];
    }
  }

  /** Last write wins: the candidate stored under an identity is the last
      one in the sequence with that identity. */
  lemma {:induction false} KeyedByIdentityLastWins(gs: seq<Feature>, j: int)
    requires 0 <= j < |gs|
    requires forall j' :: j < j' < |gs| ==> Identity(gs[j']) != Identity(gs[j])
    ensures Identity(gs[j]) in KeyedByIdentity(gs) && KeyedByIdentity(gs)[Identity(gs[j])] == gs[j]
  {
    if j < |gs| - 1 {
      var init := gs[..|gs| - 1];
      assert init[j] == gs[j];
      KeyedByIdentityLastWins(init, j);
    }
  }

  /** The deduplicated candidate map of `extractFeatures`. */
  function CandidateMap(es: seq<Example>): map<string, Feature>
  {
    KeyedByIdentity(AllCandidates(es))
  }

  /** Every candidate of every example has its identity as a key of the
      candidate map. */
  lemma CandidateKeys(es: seq<Example>)
    ensures forall i, g :: 0 <= i < |es| && g in Candidates(es[i]) ==> Identity(g) in CandidateMap(es)
  {
    KeyedByIdentityFacts(AllCandidates(es));
    forall i, g | 0 <= i < |es| && g in Candidates(es[i]) ensures Identity(g) in CandidateMap(es) {
      AllCandidatesMember(es, g);
    }
  }

  /** Each entry of the candidate map is stored under its own identity, so
      no two entries share one, and is a candidate of some example. */
  lemma CandidateEntries(es: seq<Example>)
    ensures forall k :: k in CandidateMap(es) ==> Identity(CandidateMap(es)[k]) == k
    ensures forall k :: k in CandidateMap(es) ==>
      exists i :: 0 <= i < |es| && CandidateMap(es)[k] in Candidates(es[i])
  {
    var m := CandidateMap(es);
    KeyedByIdentityFacts(AllCandidates(es));
    forall k | k in m ensures exists i :: 0 <= i < |es| && m[k] in Candidates(es[i]) {
      AllCandidatesMember(es, m[k]);
    }
  }

  /** Every entry of the candidate map is a title bigram read from the title
      or a content bigram read from the content. */
  lemma CandidateValuesAreBigrams(es: seq<Example>)
    ensures forall g :: g in CandidateMap(es).Values ==>
      g.Bigram? && ((g.tag == "title" && g.field == Title) || (g.tag == "content" && g.field == Content))
  {
    var m := CandidateMap(es);
    CandidateEntries(es);
    forall g | g in m.Values
      ensures g.Bigram? && ((g.tag == "title" && g.field == Title) || (g.tag == "content" && g.field == Content))
    {
      var k :| k in m && m[k] == g;
      var i :| 0 <= i < |es| && g in Candidates(es[i]);
      assert g in Bigrams("title", Title, es[i]) || g in Bigrams("content", Content, es[i]);
    }
  }

  /** Support count: on how many of `es` the feature fires. */
  function Support(g: Feature, es: seq<Example>): (n: nat)
    ensures n <= |es|
  {
    if |es| == 0 then 0
    else Support(g, es[..|es| - 1]) + (if Fires(g, es[|es| - 1]) then 1 else 0)
  }

  /** A feature that fires on one of the examples has support at least one. */
  lemma {:induction false} SupportPositive(g: Feature, es: seq<Example>, i: int)
    requires 0 <= i < |es| && Fires(g, es[i])
    ensures Support(g, es) >= 1
  {
    if i < |es| - 1 {
      var init := es[..|es| - 1];
      assert init[i] == es[i];
      SupportPositive(g, init, i);
    }
  }

  /** Every entry of the candidate map fires on the example it came from,
      so its support is at least one. */
  lemma CandidateSupportPositive(es: seq<Example>, g: Feature)
    requires g in CandidateMap(es).Values
    ensures Support(g, es) >= 1
  {
    CandidateEntries(es);
    var m := CandidateMap(es);
    var k :| k in m && m[k] == g;
    var i :| 0 <= i < |es| && g in Candidates(es[i]);
    BigramsFire("title", Title, es[i]);
    BigramsFire("content", Content, es[i]);
    SupportPositive(g, es, i);
  }

  /** `int(0.001 * float64(n))`, in integer arithmetic. */
  function MinSupport(n: nat): (m: nat)
    ensures 1000 * m <= n < 1000 * (m + 1)
  {
    n / 1000
  }

  /** `int(0.95 * float64(n))`, in integer arithmetic. */
  function MaxSupport(n: nat): (m: nat)
    ensures 100 * m <= 95 * n < 100 * (m + 1)
  {
    (95 * n) / 100
  }

  /** The support window `extractFeatures` keeps. */
  predicate InWindow(g: Feature, es: seq<Example>)
  {
    MinSupport(|es|) <= Support(g, es) <= MaxSupport(|es|)
  }

  /** The window is never empty and never reaches beyond the number of
      examples. */
  lemma WindowBounds(n: nat)
    ensures MinSupport(n) <= MaxSupport(n) <= n
  {
  }

  /** The map-building loop of `extractFeatures`: for each example, record
      its title bigrams and then its content bigrams under their identities. */
  method BuildCandidateMap(examples: seq<Example>) returns (bigrams: map<string, Feature>)
    ensures bigrams == CandidateMap(examples)
  {
    bigrams := map[];
    for i := 0 to |examples|
      invariant bigrams == KeyedByIdentity(AllCandidates(examples[..i]))
    {
      ghost var done := AllCandidates(examples[..i]);
      var titles := ExtractBigrams("title", Title, examples[i]);
      assert done + titles[..0] == done;
      for j := 0 to |titles|
        invariant bigrams == KeyedByIdentity(done + titles[..j])
      {
        KeyedByIdentityStep(done, titles, j);
        bigrams := bigrams[Identity(titles[j]) := titles[j]];
      }
      assert titles[..|titles|] == titles;
      var contents := ExtractBigrams("content", Content, examples[i]);
      assert (done + titles) + contents[..0] == done + titles;
      for j := 0 to |contents|
        invariant bigrams == KeyedByIdentity((done + titles) + contents[..j])
      {
        KeyedByIdentityStep(done + titles, contents, j);
        bigrams := bigrams[Identity(contents[j]) := contents[j]];
      }
      assert contents[..|contents|] == contents;
      FlatMapStep(examples, Candidates, i);
      ConcatAssoc(done, titles, contents);
    }
    assert examples[..|examples|] == examples;
  }

  /** The counting loop of `extractFeatures`: on how many examples the
      bigram's prediction has a clear sign bit. */
  method CountSupport(gram: Feature, examples: seq<Example>) returns (count: nat)
    requires gram.Bigram?
    ensures count == Support(gram, examples)
  {
    count := 0;
    for j := 0 to |examples|
      invariant count == Support(gram, examples[..j])
    {
      assert examples[..j + 1][..j] == examples[..j];
      var p := PredictBigram(gram, examples[j]);
      if p >= 0.0 {
        count := count + 1;
      }
    }
    assert examples[..|examples|] == examples;
  }

  /** No two features of `fs` share an identity string. */
  ghost predicate DistinctIdentities(fs: seq<Feature>)
  {
    forall i, j :: 0 <= i < j < |fs| ==> Identity(fs[i]) != Identity(fs[j])
  }

  /** Appending a feature whose identity is new keeps identities distinct. */
  lemma AppendDistinct(fs: seq<Feature>, g: Feature)
    requires DistinctIdentities(fs)
    requires forall f :: f in fs ==> Identity(f) != Identity(g)
    ensures DistinctIdentities(fs + [g])
  {
    var fs' := fs + [g];
    forall i, j | 0 <= i < j < |fs'| ensures Identity(fs'[i]) != Identity(fs'[j]) {
      assert fs'[i] == fs[i];
      if j < |fs| {
        assert fs'[j] == fs[j];
      }
    }
  }

  /** The filtering loop of `extractFeatures`: visit every entry of the
      candidate map, in an arbitrary order as Go's map iteration is
      unspecified, and keep those whose support lies in `[lo, hi]`. */
  method FilterBySupport(bigrams: map<string, Feature>, examples: seq<Example>, lo: int, hi: int)
    returns (features: seq<Feature>)
    requires forall k :: k in bigrams ==> Identity(bigrams[k]) == k && bigrams[k].Bigram?
    ensures forall g :: g in features <==> g in bigrams.Values && lo <= Support(g, examples) <= hi
    ensures DistinctIdentities(features)
  {
    features := [];
    var remaining := bigrams.Keys;
    while remaining != {}
      invariant remaining <= bigrams.Keys
      invariant forall g :: g in features ==>
        Identity(g) in bigrams && bigrams[Identity(g)] == g && Identity(g) !in remaining &&
        lo <= Support(g, examples) <= hi
      invariant forall k :: k in bigrams && k !in remaining && lo <= Support(bigrams[k], examples) <= hi ==>
        bigrams[k] in features
      invariant DistinctIdentities(features)
      decreases remaining
    {
      var key :| key in remaining;
      var gram := bigrams[key];
      var count := CountSupport(gram, examples);
      if lo <= count && count <= hi {
        AppendDistinct(features, gram);
        features := features + [gram];
      }
      remaining := remaining - {key};
    }
    forall g | g in bigrams.Values && lo <= Support(g, examples) <= hi ensures g in features {
      var k :| k in bigrams && bigrams[k] == g;
    }
  }

  /** `extractFeatures`: build the candidate map from every example, then
      keep each entry whose support lies in the window. The result is fixed
      only as a collection: its order is that of Go's map iteration. */
  method ExtractFeatures(examples: seq<Example>) returns (features: seq<Feature>)
    ensures forall g :: g in features <==> g in CandidateMap(examples).Values && InWindow(g, examples)
    ensures DistinctIdentities(features)
    ensures forall g :: g in features ==> exists i :: 0 <= i < |examples| && g in Candidates(examples[i])
  {
    var bigrams := BuildCandidateMap(examples);
    CandidateEntries(examples);
    CandidateValuesAreBigrams(examples);
    var minExamples := MinSupport(|examples|);
    var maxExamples := MaxSupport(|examples|);
    features := FilterBySupport(bigrams, examples, minExamples, maxExamples);
    forall g | g in features ensures exists i :: 0 <= i < |examples| && g in Candidates(examples[i]) {
      var k :| k in bigrams && bigrams[k] == g;
    }
  }

  /** Three space-free words joined by single spaces split back into them. */
  lemma SplitWords3(a: string, b: string, c: string)
    requires Space !in a && Space !in b && Space !in c
    ensures Split(a + " " + b + " " + c) == [a, b, c]
  {
    assert [a, b, c][1..] == [b, c] && [b, c][1..] == [c];
    assert Join([b, c]) == b + [Space] + c;
    assert Join([a, b, c]) == a + [Space] + (b + [Space] + c);
    assert a + [Space] + (b + [Space] + c) == a + " " + b + " " + c;
    SplitJoin([a, b, c]);
  }

  /** An example whose title is three space-free words and whose content is
      empty contributes the two title bigrams of those words and nothing
      else, and a title bigram fires on it exactly for those two pairs. */
  lemma ThreeWordTitle(e: Example, a: string, b: string, c: string)
    requires Space !in a && Space !in b && Space !in c
    requires e.issue.title == a + " " + b + " " + c && e.issue.content == ""
    ensures Candidates(e) == [Bigram("title", Title, a, b), Bigram("title", Title, b, c)]
    ensures forall x, y :: Fires(Bigram("title", Title, x, y), e) <==> (x == a && y == b) || (x == b && y == c)
  {
    SplitWords3(a, b, c);
    assert Split("") == [""];
    var ws := [a, b, c];
    forall x, y ensures Fires(Bigram("title", Title, x, y), e) <==> (x == a && y == b) || (x == b && y == c) {
      if (x == a && y == b) {
        assert PairAt(ws, 0, x, y);
      } else if (x == b && y == c) {
        assert PairAt(ws, 1, x, y);
      }
    }
  }

  /** Two dev examples with titles "foo bar baz" and "bar baz qux" and empty
      contents: the window for two examples is [0, 1]. `(foo,bar)` and
      `(baz,qux)` fire on one example each and are kept; `(bar,baz)` fires
      on both, so its support 2 is above the window and it is dropped. */
  lemma TwoExampleCorpus(e1: Example, e2: Example)
    requires e1.issue.title == "foo bar baz" && e1.issue.content == ""
    requires e2.issue.title == "bar baz qux" && e2.issue.content == ""
    ensures MinSupport(2) == 0 && MaxSupport(2) == 1
    ensures Candidates(e1) == [Bigram("title", Title, "foo", "bar"), Bigram("title", Title, "bar", "baz")]
    ensures Candidates(e2) == [Bigram("title", Title, "bar", "baz"), Bigram("title", Title, "baz", "qux")]
    ensures InWindow(Bigram("title", Title, "foo", "bar"), [e1, e2])
    ensures InWindow(Bigram("title", Title, "baz", "qux"), [e1, e2])
    ensures Support(Bigram("title", Title, "bar", "baz"), [e1, e2]) == 2
    ensures !InWindow(Bigram("title", Title, "bar", "baz"), [e1, e2])
    ensures Bigram("title", Title, "foo", "bar") in CandidateMap([e1, e2]).Values
    ensures Bigram("title", Title, "bar", "baz") in CandidateMap([e1, e2]).Values
    ensures Bigram("title", Title, "baz", "qux") in CandidateMap([e1, e2]).Values
  {
    TwoExampleCandidates(e1, e2);
    TwoExampleIdentities();
    var fb, bb, bq := Bigram("title", Title, "foo", "bar"), Bigram("title", Title, "bar", "baz"), Bigram("title", Title, "baz", "qux");
    TwoExampleMap(e1, e2, fb, bb, bq);
    SupportOfTwo(fb, e1, e2);
    SupportOfTwo(bb, e1, e2);
    SupportOfTwo(bq, e1, e2);
  }

  /** The candidates of the two titles "foo bar baz" and "bar baz qux", and on
      which of the two each of them fires. */
  lemma TwoExampleCandidates(e1: Example, e2: Example)
    requires e1.issue.title == "foo bar baz" && e1.issue.content == ""
    requires e2.issue.title == "bar baz qux" && e2.issue.content == ""
    ensures Candidates(e1) == [Bigram("title", Title, "foo", "bar"), Bigram("title", Title, "bar", "baz")]
    ensures Candidates(e2) == [Bigram("title", Title, "bar", "baz"), Bigram("title", Title, "baz", "qux")]
    ensures Fires(Bigram("title", Title, "foo", "bar"), e1) && !Fires(Bigram("title", Title, "foo", "bar"), e2)
    ensures Fires(Bigram("title", Title, "bar", "baz"), e1) && Fires(Bigram("title", Title, "bar", "baz"), e2)
    ensures !Fires(Bigram("title", Title, "baz", "qux"), e1) && Fires(Bigram("title", Title, "baz", "qux"), e2)
  {
    FooBarBaz(e1);
    BarBazQux(e2);
  }

  /** The title "foo bar baz": its two bigrams, and that `(baz,qux)` does not fire on it. */
  lemma FooBarBaz(e: Example)
    requires e.issue.title == "foo bar baz" && e.issue.content == ""
    ensures Candidates(e) == [Bigram("title", Title, "foo", "bar"), Bigram("title", Title, "bar", "baz")]
    ensures Fires(Bigram("title", Title, "foo", "bar"), e) && Fires(Bigram("title", Title, "bar", "baz"), e)
    ensures !Fires(Bigram("title", Title, "baz", "qux"), e)
  {
    assert "foo bar baz" == "foo" + " " + "bar" + " " + "baz";
    ThreeWordTitle(e, "foo", "bar", "baz");
  }

  /** The title "bar baz qux": its two bigrams, and that `(foo,bar)` does not fire on it. */
  lemma BarBazQux(e: Example)
    requires e.issue.title == "bar baz qux" && e.issue.content == ""
    ensures Candidates(e) == [Bigram("title", Title, "bar", "baz"), Bigram("title", Title, "baz", "qux")]
    ensures Fires(Bigram("title", Title, "bar", "baz"), e) && Fires(Bigram("title", Title, "baz", "qux"), e)
    ensures !Fires(Bigram("title", Title, "foo", "bar"), e)
  {
    assert "bar baz qux" == "bar" + " " + "baz" + " " + "qux";
    ThreeWordTitle(e, "bar", "baz", "qux");
  }

  /** Two examples contributing `[a, b]` and `[b, c]`, with three distinct
      identities: the candidate map holds all three. */
  lemma TwoExampleMap(e1: Example, e2: Example, a: Feature, b: Feature, c: Feature)
    requires Candidates(e1) == [a, b] && Candidates(e2) == [b, c]
    requires Identity(a) != Identity(b) && Identity(a) != Identity(c) && Identity(b) != Identity(c)
    ensures a in CandidateMap([e1, e2]).Values
    ensures b in CandidateMap([e1, e2]).Values
    ensures c in CandidateMap([e1, e2]).Values
  {
    AllCandidatesOfTwo(e1, e2);
    RepeatedCandidateKeepsAll(a, b, c);
  }

  /** The identities of the three bigrams of the two-example corpus. */
  lemma TwoExampleIdentities()
    ensures Identity(Bigram("title", Title, "foo", "bar")) == "title*(foo,bar)"
    ensures Identity(Bigram("title", Title, "bar", "baz")) == "title*(bar,baz)"
    ensures Identity(Bigram("title", Title, "baz", "qux")) == "title*(baz,qux)"
  {
  }

  /** The candidates of two examples, in visiting order. */
  lemma AllCandidatesOfTwo(e1: Example, e2: Example)
    ensures AllCandidates([e1, e2]) == Candidates(e1) + Candidates(e2)
  {
    FlatMapOfTwo(e1, e2, Candidates);
  }

  /** A flat map over two elements is the concatenation of their pieces. */
  lemma FlatMapOfTwo<A, B>(x: A, y: A, f: A -> seq<B>)
    ensures FlatMap([x, y], f) == f(x) + f(y)
  {
    var xs := [x, y];
    FlatMapStep(xs, f, 0);
    FlatMapStep(xs, f, 1);
    assert xs[..0] == [] && xs[..2] == xs;
  }

  /** Candidates `a, b, b, c` with three distinct identities, `b` seen
      twice: the map holds all three, the repeat of `b` losing nothing. */
  lemma RepeatedCandidateKeepsAll(a: Feature, b: Feature, c: Feature)
    requires Identity(a) != Identity(b) && Identity(a) != Identity(c) && Identity(b) != Identity(c)
    ensures a in KeyedByIdentity([a, b] + [b, c]).Values
    ensures b in KeyedByIdentity([a, b] + [b, c]).Values
    ensures c in KeyedByIdentity([a, b] + [b, c]).Values
  {
    var gs := [a, b] + [b, c];
    assert gs == [a, b, b, c];
    KeyedByIdentityLastWins(gs, 0);
    KeyedByIdentityLastWins(gs, 2);
    KeyedByIdentityLastWins(gs, 3);
  }

  /** Support over two examples, spelled out. */
  lemma SupportOfTwo(g: Feature, e1: Example, e2: Example)
    ensures Support(g, [e1, e2]) == (if Fires(g, e1) then 1 else 0) + (if Fires(g, e2) then 1 else 0)
  {
    assert [e1, e2][..1] == [e1] && [e1][..0] == [];
  }
}
