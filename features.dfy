/** The three feature families of labelmaker/src/main.go (`titleFeature`,
    `contentFeature`, `bigram`): their canonical identity strings (the
    `String` methods) and their +1/-1 predictions. */
module Features {
  import opened Text
  import opened Issues

  /** Which text field of an example a bigram reads (the `stringer`
      closures `title` and `content` of `extractFeatures`). */
  datatype Field = Title | Content

  function FieldText(f: Field, e: Example): string
  {
    match f
    case Title => e.issue.title
    case Content => e.issue.content
  }

  datatype Feature =
    | TitleWord(word: string)
    | ContentWord(word: string)
    | Bigram(tag: string, field: Field, w1: string, w2: string)

  /** The feature's `String()`: `title*word`, the bare word, and
      `tag*(w1,w2)` (the Go field `label`, renamed because `label` is a Dafny keyword). */
  function Identity(g: Feature): string
  {
    match g
    case TitleWord(w) => "title*" + w
    case ContentWord(w) => w
    case Bigram(l, _, w1, w2) => l + "*(" + w1 + "," + w2 + ")"
  }

  /** The words `w1`, `w2` stand next to each other at index `i` of `ws`. */
  ghost predicate PairAt(ws: seq<string>, i: int, w1: string, w2: string)
  {
    0 <= i && i + 1 < |ws| && ws[i] == w1 && ws[i + 1] == w2
  }

  /** Whether the adjacent pair `(w1, w2)` occurs somewhere in `ws`. */
  function HasAdjacentPair(ws: seq<string>, w1: string, w2: string): (b: bool)
    ensures b <==> exists i :: PairAt(ws, i, w1, w2)
  {
    if |ws| < 2 then
      false
    else if ws[0] == w1 && ws[1] == w2 then
      assert PairAt(ws, 0, w1, w2);
      true
    else
      var b := HasAdjacentPair(ws[1..], w1, w2);
      assert forall i :: PairAt(ws[1..], i, w1, w2) ==> PairAt(ws, i + 1, w1, w2);
      assert forall i :: PairAt(ws, i, w1, w2) ==> PairAt(ws[1..], i - 1, w1, w2);
      b
  }

  /** `Predict`: +1.0 when the feature fires, -1.0 otherwise. A word
      feature fires when its word is a substring of its field; a bigram
      fires when its pair stands next to each other among the tokens of
      the space-split field. */
  function Predict(g: Feature, e: Example): (r: real)
    ensures r == 1.0 || r == -1.0
    ensures g.TitleWord? ==> (r == 1.0 <==> exists i :: OccursAt(e.issue.title, g.word, i))
    ensures g.ContentWord? ==> (r == 1.0 <==> exists i :: OccursAt(e.issue.content, g.word, i))
    ensures g.Bigram? ==> (r == 1.0 <==> exists i :: PairAt(Split(FieldText(g.field, e)), i, g.w1, g.w2))
  {
    var fires :=
      if g.TitleWord? then Contains(e.issue.title, g.word)
      else if g.ContentWord? then Contains(e.issue.content, g.word)
      else HasAdjacentPair(Split(FieldText(g.field, e)), g.w1, g.w2);
    assert g.Bigram? && fires ==> exists i :: PairAt(Split(FieldText(g.field, e)), i, g.w1, g.w2);
    if fires then 1.0 else -1.0
  }

  /** `!math.Signbit(Predict(e))`, the test `extractFeatures` counts with;
      for the values +1.0 and -1.0 it is a test for +1.0. */
  predicate Fires(g: Feature, e: Example): (b: bool)
    ensures b <==> Predict(g, e) == 1.0
  {
    Predict(g, e) >= 0.0
  }

  /** `bigram.Predict` as the source writes it: split the field, scan the
      adjacent pairs, return +1.0 at the first match. */
  method PredictBigram(g: Feature, e: Example) returns (r: real)
    requires g.Bigram?
    ensures r == Predict(g, e)
  {
    var words := Split(FieldText(g.field, e));
    var i := 0;
    while i < |words| - 1
      invariant 0 <= i <= |words|
      invariant forall j :: 0 <= j < i ==> !PairAt(words, j, g.w1, g.w2)
    {
      if words[i] == g.w1 && words[i + 1] == g.w2 {
        assert PairAt(words, i, g.w1, g.w2);
        return 1.0;
      }
      i := i + 1;
    }
    return -1.0;
  }

  /** Identities of bigrams whose labels contain no `*` determine the label:
      the label is everything before the first `*`. */
  lemma BigramIdentityDeterminesLabel(b1: Feature, b2: Feature)
    requires b1.Bigram? && b2.Bigram?
    requires '*' !in b1.tag && '*' !in b2.tag
    requires Identity(b1) == Identity(b2)
    ensures b1.tag == b2.tag
  {
    var s, l1, l2 := Identity(b1), b1.tag, b2.tag;
    assert s == l1 + ("*(" + b1.w1 + "," + b1.w2 + ")");
    assert s == l2 + ("*(" + b2.w1 + "," + b2.w2 + ")");
    assert s[|l1|] == '*' && s[|l2|] == '*';
    assert l1 == s[..|l1|] == l2;
  }

  /** A title bigram and a content bigram never share an identity. */
  lemma TitleContentIdentitiesDiffer(b1: Feature, b2: Feature)
    requires b1.Bigram? && b2.Bigram?
    requires b1.tag == "title" && b2.tag == "content"
    ensures Identity(b1) != Identity(b2)
  {
    if Identity(b1) == Identity(b2) {
      BigramIdentityDeterminesLabel(b1, b2);
    }
  }

  /** Identities are not injective in the word pair: tokens may contain
      `,` and `)`, so two different pairs can print the same way. */
  lemma BigramIdentityCollision()
    ensures Identity(Bigram("title", Title, "a,b", "c")) == Identity(Bigram("title", Title, "a", "b,c"))
    ensures Bigram("title", Title, "a,b", "c") != Bigram("title", Title, "a", "b,c")
  {
    assert Identity(Bigram("title", Title, "a,b", "c")) == "title*(a,b,c)";
    assert Identity(Bigram("title", Title, "a", "b,c")) == "title*(a,b,c)";
  }
}
