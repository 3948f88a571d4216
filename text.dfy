/** String operations the feature predicates rely on: Go's `strings.Split`
    with the single-space separator and `strings.Contains`, plus a `Join`
    that states how `Split` is inverted. */
module Text {

  const Space: char := ' '

  /** Number of occurrences of character `c` in `s`. */
  function Occurrences(s: string, c: char): nat
  {
    if |s| == 0 then 0 else (if s[0] == c then 1 else 0) + Occurrences(s[1..], c)
  }

  /** `strings.Split(s, " ")`: the pieces of `s` between single spaces.
      Consecutive spaces give empty tokens and the empty string splits
      to `[""]`, so there is always one token more than there are spaces. */
  function Split(s: string): (ws: seq<string>)
    ensures |ws| == Occurrences(s, Space) + 1
    ensures forall k :: 0 <= k < |ws| ==> Space !in ws[k]
  {
    if |s| == 0 then [""]
    else
      var rest := Split(s[1..]);
      if s[0] == Space then [""] + rest
      else [[s[0]] + rest[0]] + rest[1..]
  }

  /** Go's edge cases: the empty string is one empty token, and a run of
      spaces leaves empty tokens between them. */
  lemma SplitEdgeCases()
    ensures Split("") == [""]
    ensures Split("ab") == ["ab"]
    ensures Split("a  b") == ["a", "", "b"]
    ensures Split(" ") == ["", ""]
  {
    SplitToken("ab");
    SplitToken("b");
    SplitTokenThenSpace("", "b");
    assert " b" == "" + [Space] + "b";
    SplitTokenThenSpace("a", " b");
    assert "a  b" == "a" + [Space] + " b";
    SplitTokenThenSpace("", "");
    assert " " == "" + [Space] + "";
  }

  /** The tokens joined with single spaces (as `strings.Join(ws, " ")`). */
  function Join(ws: seq<string>): string
  {
    if |ws| == 0 then ""
    else if |ws| == 1 then ws[0]
    else ws[0] + [Space] + Join(ws[1..])
  }

  /** Joining the tokens back with single spaces gives the original text. */
  lemma {:induction false} JoinSplit(s: string)
    ensures Join(Split(s)) == s
  {
    if |s| > 0 {
      var rest := Split(s[1..]);
      JoinSplit(s[1..]);
      if s[0] == Space {
        assert Split(s) == [""] + rest;
        assert Join(Split(s)) == "" + [Space] + Join(rest);
        assert s == [s[0]] + s[1..];
      } else {
        var ws := [[s[0]] + rest[0]] + rest[1..];
        assert Split(s) == ws;
        if |rest| == 1 {
          assert Join(ws) == [s[0]] + rest[0];
          assert s == [s[0]] + s[1..];
        } else {
          assert ws[1..] == rest[1..];
          assert Join(rest) == rest[0] + [Space] + Join(rest[1..]);
          assert Join(ws) == [s[0]] + rest[0] + [Space] + Join(rest[1..]);
          assert s == [s[0]] + s[1..];
        }
      }
    }
  }

  /** Splitting a join of space-free tokens recovers the tokens. */
  lemma {:induction false} SplitJoin(ws: seq<string>)
    requires |ws| >= 1
    requires forall k :: 0 <= k < |ws| ==> Space !in ws[k]
    ensures Split(Join(ws)) == ws
  {
    if |ws| == 1 {
      SplitToken(ws[0]);
    } else {
      SplitJoin(ws[1..]);
      SplitTokenThenSpace(ws[0], Join(ws[1..]));
      assert ws == [ws[0]] + ws[1..];
    }
  }

  /** A space-free token splits to itself. */
  lemma {:induction false} SplitToken(w: string)
    requires Space !in w
    ensures Split(w) == [w]
  {
    if |w| > 0 {
      SplitToken(w[1..]);
      assert w == [w[0]] + w[1..];
    }
  }

  /** A space-free token followed by a space and more text splits into the
      token followed by the tokens of the rest. */
  lemma {:induction false} SplitTokenThenSpace(w: string, t: string)
    requires Space !in w
    ensures Split(w + [Space] + t) == [w] + Split(t)
  {
    if |w| == 0 {
      assert w + [Space] + t == [Space] + t;
      assert ([Space] + t)[1..] == t;
    } else {
      SplitTokenThenSpace(w[1..], t);
      var s := w + [Space] + t;
      assert s[0] == w[0];
      assert s[1..] == w[1..] + [Space] + t;
      assert w == [w[0]] + w[1..];
    }
  }

  /** `w` occurs in `s` starting at index `i`. */
  ghost predicate OccursAt(s: string, w: string, i: int)
  {
    0 <= i && i + |w| <= |s| && s[i..i + |w|] == w
  }

  /** `strings.Contains(s, w)`: whether `w` is a contiguous substring of `s`
      (the empty word is a substring of every string). */
  function Contains(s: string, w: string): (b: bool)
    ensures b <==> exists i :: OccursAt(s, w, i)
  {
    if w <= s then
      assert OccursAt(s, w, 0);
      true
    else if |s| == 0 then
      assert forall i :: !OccursAt(s, w, i);
      false
    else
      var r := Contains(s[1..], w);
      assert forall i :: OccursAt(s[1..], w, i) ==> OccursAt(s, w, i + 1) by {
        forall i | OccursAt(s[1..], w, i) ensures OccursAt(s, w, i + 1) {
          assert s[i + 1..i + 1 + |w|] == s[1..][i..i + |w|];
        }
      }
      assert forall i :: OccursAt(s, w, i) ==> OccursAt(s[1..], w, i - 1) by {
        forall i | OccursAt(s, w, i) ensures OccursAt(s[1..], w, i - 1) {
          assert s[1..][i - 1..i - 1 + |w|] == s[i..i + |w|];
        }
      }
      r
  }
}
