/** The skill normalizer: `normalize_skills` turns the free-text,
    comma-separated skill field of a user into a list of skill tokens. */
module Skills {
  import opened Wrappers
  import opened Text

  /** What every token the normalizer produces looks like: not empty, no
      whitespace at either end, lower case, and free of commas. */
  predicate IsToken(t: string) {
    && t != []
    && !IsSpace(t[0])
    && !IsSpace(t[|t| - 1])
    && IsLowercase(t)
    && ',' !in t
  }

  /** One piece of the split text made canonical: `piece.strip().lower()`. */
  function Canonical(piece: string): string {
    Lower(Strip(piece))
  }

  /** `[f(x) for x in xs if keep(x)]`: the elements `keep` accepts, each
      mapped by `f`, in order. */
  function FilterMap(xs: seq<string>, keep: string -> bool, f: string -> string): seq<string>
    decreases |xs|
  {
    if xs == [] then [] else (if keep(xs[0]) then [f(xs[0])] else []) + FilterMap(xs[1..], keep, f)
  }

  /** How many elements of `xs` `keep` accepts. */
  function CountKept(xs: seq<string>, keep: string -> bool): nat
    decreases |xs|
  {
    if xs == [] then 0 else (if keep(xs[0]) then 1 else 0) + CountKept(xs[1..], keep)
  }

  /** The test `if s.strip()`: the piece is not blank. */
  predicate HasContent(piece: string) {
    Strip(piece) != []
  }

  /** The comprehension `[s.strip().lower() for s in pieces if s.strip()]`:
      every piece that is not blank yields one token, in order. */
  function Tokens(pieces: seq<string>): seq<string> {
    FilterMap(pieces, HasContent, Canonical)
  }

  predicate CommaFree(pieces: seq<string>) {
    forall p :: p in pieces ==> ',' !in p
  }

  /** Each token is a well-formed skill token, and there are no more
      tokens than pieces. */
  lemma {:induction false} TokensWellFormed(pieces: seq<string>)
    requires CommaFree(pieces)
    ensures |Tokens(pieces)| <= |pieces|
    ensures forall t :: t in Tokens(pieces) ==> IsToken(t)
    decreases |pieces|
  {
    if pieces != [] {
      var p := pieces[0];
      assert CommaFree(pieces[1..]) by {
        forall q | q in pieces[1..] ensures ',' !in q { assert q in pieces; }
      }
      TokensWellFormed(pieces[1..]);
      assert Tokens(pieces) == (if HasContent(p) then [Canonical(p)] else []) + Tokens(pieces[1..]);
      if HasContent(p) {
        CanonicalIsToken(p);
      }
    }
  }

  /** A non-blank piece without commas becomes a well-formed token. */
  lemma CanonicalIsToken(p: string)
    requires ',' !in p && Strip(p) != []
    ensures IsToken(Canonical(p))
  {
    var s := Strip(p);
    LowerKeeps(s);
    StripSurrounds(p);
    assert s == p[StripStart(p)..StripStart(p) + |s|];
    forall k | 0 <= k < |s| ensures Lower(s)[k] != ',' {
      assert s[k] in p;
    }
  }

  /** `normalize_skills(skills_text)`: an absent text counts as the empty
      one (`skills_text or ""`); it is split on commas and every non-blank
      piece gives one token, in order, duplicates kept. There are never more
      tokens than pieces. */
  function NormalizeSkills(text: Option<string>): (r: seq<string>)
    ensures forall t :: t in r ==> IsToken(t)
    ensures |r| <= Count(text.GetOr([]), ',') + 1
  {
    var pieces := Split(text.GetOr([]));
    TokensWellFormed(pieces);
    Tokens(pieces)
  }

  /** `set(normalize_skills(skills_text))`, the form the matcher uses. */
  function SkillSet(text: Option<string>): (s: set<string>)
    ensures forall t :: t in s ==> IsToken(t)
    ensures |s| <= |NormalizeSkills(text)|
  {
    var tokens := NormalizeSkills(text);
    ElemsSize(tokens);
    Elems(tokens)
  }

  /** The set of the elements of a list: Python's `set(xs)`. */
  function Elems(xs: seq<string>): set<string> {
    set x | x in xs
  }

  lemma ElemsEmpty(xs: seq<string>)
    ensures Elems(xs) == {} <==> xs == []
  {
    if xs != [] {
      assert xs[0] in Elems(xs);
    }
  }

  /** A list has at least as many elements as its set. */
  lemma {:induction false} ElemsSize(xs: seq<string>)
    ensures |Elems(xs)| <= |xs|
    decreases |xs|
  {
    if xs != [] {
      ElemsSize(xs[1..]);
      assert xs == [xs[0]] + xs[1..];
      assert Elems(xs) == {xs[0]} + Elems(xs[1..]);
    }
  }

  lemma {:induction false} FilterMapLength(xs: seq<string>, keep: string -> bool, f: string -> string)
    ensures |FilterMap(xs, keep, f)| == CountKept(xs, keep)
    decreases |xs|
  {
    if xs != [] {
      FilterMapLength(xs[1..], keep, f);
    }
  }

  lemma CountKeptPrefix(xs: seq<string>, keep: string -> bool, i: nat)
    requires 0 < i <= |xs|
    ensures CountKept(xs[..i], keep) == (if keep(xs[0]) then 1 else 0) + CountKept(xs[1..][..i - 1], keep)
  {
    assert xs[..i][0] == xs[0] && xs[..i][1..] == xs[1..][..i - 1];
  }

  /** The accepted element at index `i` is mapped to the position that counts
      the accepted elements before it. */
  lemma {:induction false} FilterMapInOrder(xs: seq<string>, keep: string -> bool, f: string -> string, i: nat)
    requires i < |xs| && keep(xs[i])
    ensures CountKept(xs[..i], keep) < |FilterMap(xs, keep, f)|
    ensures FilterMap(xs, keep, f)[CountKept(xs[..i], keep)] == f(xs[i])
    decreases i
  {
    FilterMapLength(xs, keep, f);
    var front := if keep(xs[0]) then [f(xs[0])] else [];
    assert FilterMap(xs, keep, f) == front + FilterMap(xs[1..], keep, f);
    if i == 0 {
      assert xs[..0] == [];
    } else {
      FilterMapInOrder(xs[1..], keep, f, i - 1);
      CountKeptPrefix(xs, keep, i);
      var m := CountKept(xs[1..][..i - 1], keep);
      assert (front + FilterMap(xs[1..], keep, f))[|front| + m] == FilterMap(xs[1..], keep, f)[m];
    }
  }

  /** Every element of the result is the image of an accepted element. */
  lemma {:induction false} FilterMapFrom(xs: seq<string>, keep: string -> bool, f: string -> string, k: nat)
    requires k < |FilterMap(xs, keep, f)|
    ensures exists i :: (0 <= i < |xs| && keep(xs[i])
      && CountKept(xs[..i], keep) == k && FilterMap(xs, keep, f)[k] == f(xs[i]))
    decreases |xs|
  {
    var front := if keep(xs[0]) then [f(xs[0])] else [];
    var rest := FilterMap(xs[1..], keep, f);
    assert FilterMap(xs, keep, f) == front + rest;
    if front != [] && k == 0 {
      assert xs[..0] == [];
      assert keep(xs[0]) && CountKept(xs[..0], keep) == 0;
    } else {
      var k' := k - |front|;
      FilterMapFrom(xs[1..], keep, f, k');
      var i :| 0 <= i < |xs[1..]| && keep(xs[1..][i])
        && CountKept(xs[1..][..i], keep) == k' && rest[k'] == f(xs[1..][i]);
      CountKeptPrefix(xs, keep, i + 1);
      assert (front + rest)[k] == rest[k'];
      assert xs[i + 1] == xs[1..][i];
    }
  }

  /** Nothing is kept exactly when `keep` accepts no element. */
  lemma {:induction false} FilterMapEmpty(xs: seq<string>, keep: string -> bool, f: string -> string)
    ensures FilterMap(xs, keep, f) == [] <==> forall x :: x in xs ==> !keep(x)
    decreases |xs|
  {
    if xs != [] {
      FilterMapEmpty(xs[1..], keep, f);
      assert xs == [xs[0]] + xs[1..];
    }
  }

  /** Number of pieces that are not blank. */
  function NonBlankCount(pieces: seq<string>): nat {
    CountKept(pieces, HasContent)
  }

  /** One token per non-blank piece. */
  lemma TokensLength(pieces: seq<string>)
    ensures |Tokens(pieces)| == NonBlankCount(pieces)
  {
    FilterMapLength(pieces, HasContent, Canonical);
  }

  /** The non-blank piece at index `i` gives the token at the position that
      counts the non-blank pieces before it: order is kept. */
  lemma TokensInOrder(pieces: seq<string>, i: nat)
    requires i < |pieces| && !Blank(pieces[i])
    ensures NonBlankCount(pieces[..i]) < |Tokens(pieces)|
    ensures Tokens(pieces)[NonBlankCount(pieces[..i])] == Canonical(pieces[i])
  {
    FilterMapInOrder(pieces, HasContent, Canonical, i);
  }

  /** Every token comes from a non-blank piece, the one with exactly as many
      non-blank pieces before it as there are tokens before the token. */
  lemma TokensFromPieces(pieces: seq<string>, k: nat)
    requires k < |Tokens(pieces)|
    ensures exists i :: (0 <= i < |pieces| && !Blank(pieces[i])
      && NonBlankCount(pieces[..i]) == k && Tokens(pieces)[k] == Canonical(pieces[i]))
  {
    FilterMapFrom(pieces, HasContent, Canonical, k);
    var i :| 0 <= i < |pieces| && HasContent(pieces[i])
      && CountKept(pieces[..i], HasContent) == k && Tokens(pieces)[k] == Canonical(pieces[i]);
    assert !Blank(pieces[i]);
  }

  /** All pieces are blank. */
  predicate AllBlank(pieces: seq<string>) {
    forall p :: p in pieces ==> Blank(p)
  }

  lemma TokensEmpty(pieces: seq<string>)
    ensures Tokens(pieces) == [] <==> AllBlank(pieces)
  {
    FilterMapEmpty(pieces, HasContent, Canonical);
  }

  lemma AllBlankCons(p: string, ps: seq<string>)
    ensures AllBlank([p] + ps) <==> Blank(p) && AllBlank(ps)
  {
    if Blank(p) && AllBlank(ps) {
      forall q | q in [p] + ps ensures Blank(q) {
        if q != p { assert q in ps; }
      }
    }
    if AllBlank([p] + ps) {
      forall q | q in ps ensures Blank(q) { assert q in [p] + ps; }
    }
  }

  /** Nothing but whitespace and commas. */
  predicate SpacesAndCommas(s: string) {
    forall k :: 0 <= k < |s| ==> IsSpace(s[k]) || s[k] == ','
  }

  /** Every piece of the split text is blank exactly when the text holds
      nothing but whitespace and commas. */
  lemma {:induction false} SplitAllBlank(s: string)
    ensures AllBlank(Split(s)) <==> SpacesAndCommas(s)
    decreases |s|
  {
    if s != [] {
      SplitAllBlank(s[1..]);
      var rest := Split(s[1..]);
      assert rest == [rest[0]] + rest[1..];
      assert SpacesAndCommas(s) <==> (IsSpace(s[0]) || s[0] == ',') && SpacesAndCommas(s[1..]) by {
        assert forall k :: 1 <= k < |s| ==> s[k] == s[1..][k - 1];
      }
      if s[0] == ',' {
        assert Split(s) == [[]] + rest;
        AllBlankCons([], rest);
      } else {
        var q := [s[0]] + rest[0];
        assert Split(s) == [q] + rest[1..];
        AllBlankCons(q, rest[1..]);
        AllBlankCons(rest[0], rest[1..]);
        BlankConcat([s[0]], rest[0]);
        assert Blank([s[0]]) <==> IsSpace(s[0]) by {
          assert [s[0]][0] == s[0];
        }
      }
    }
  }

  /** The normalizer gives no token exactly when the text is absent or holds
      nothing but whitespace and commas (so "", "   " and ",,," give none). */
  lemma NormalizeEmpty(text: Option<string>)
    ensures NormalizeSkills(text) == [] <==>
      (text.None? || SpacesAndCommas(text.value))
  {
    var s := text.GetOr([]);
    TokensEmpty(Split(s));
    SplitAllBlank(s);
  }

  /** An absent text, the empty text, a blank text and a text of commas all
      give no token. */
  lemma EmptyExamples()
    ensures NormalizeSkills(None) == []
    ensures NormalizeSkills(Some("")) == []
    ensures NormalizeSkills(Some("   ")) == []
    ensures NormalizeSkills(Some(",,,")) == []
  {
    NormalizeEmpty(None);
    NormalizeEmpty(Some(""));
    assert IsSpace(' ');
    NormalizeEmpty(Some("   "));
    NormalizeEmpty(Some(",,,"));
  }

  /** Trimming, lower-casing and keeping duplicates: "Python, COOKING ,
      python" gives "python", "cooking", "python", whose set has two
      skills. */
  lemma NormalizeExample()
    ensures NormalizeSkills(Some("Python, COOKING , python")) == ["python", "cooking", "python"]
  {
    SplitExample();
    TokensExample();
  }

  /** Repeated skills collapse in the set the matching works with. */
  lemma SkillSetExample()
    ensures SkillSet(Some("Python, COOKING , python")) == {"python", "cooking"}
  {
    NormalizeExample();
    ElemsRepeated("python", "cooking");
  }

  lemma ElemsRepeated(a: string, b: string)
    ensures Elems([a, b, a]) == {a, b}
  {
    var r := [a, b, a];
    assert r[0] in Elems(r) && r[1] in Elems(r);
  }

  lemma TokensExample()
    ensures Tokens(["Python", " COOKING ", " python"]) == ["python", "cooking", "python"]
  {
    CanonicalExamples();
    assert |Strip("Python")| == 6 && |Strip(" COOKING ")| == 7 && |Strip(" python")| == 6;
    FilterMapOfThree("Python", " COOKING ", " python", HasContent, Canonical);
  }

  lemma FilterMapOfThree(a: string, b: string, c: string, keep: string -> bool, f: string -> string)
    requires keep(a) && keep(b) && keep(c)
    ensures FilterMap([a, b, c], keep, f) == [f(a), f(b), f(c)]
  {
    assert [c][1..] == [] && [b, c][1..] == [c] && [a, b, c][1..] == [b, c];
    assert FilterMap([c], keep, f) == [f(c)];
    assert FilterMap([b, c], keep, f) == [f(b), f(c)];
  }

  lemma SplitExample()
    ensures Split("Python, COOKING , python") == ["Python", " COOKING ", " python"]
  {
    var pieces := ["Python", " COOKING ", " python"];
    assert Join(pieces[2..]) == " python";
    assert Join(pieces[1..]) == " COOKING " + [','] + " python";
    assert Join(pieces) == "Python, COOKING , python";
    SplitJoin(pieces);
  }

  lemma CanonicalExamples()
    ensures Canonical("Python") == "python"
    ensures Canonical(" COOKING ") == "cooking"
    ensures Canonical(" python") == "python"
  {
    CanonicalFirst();
    CanonicalSecond();
    CanonicalThird();
  }

  lemma CanonicalFirst()
    ensures Canonical("Python") == "python"
  {
    var s := "Python";
    assert !IsSpace('P') && !IsSpace('n');
    assert StripStart(s) == 0 && StripEnd(s) == 6;
    assert Strip(s) == s;
  }

  lemma CanonicalSecond()
    ensures Canonical(" COOKING ") == "cooking"
  {
    var s := " COOKING ";
    assert IsSpace(' ') && !IsSpace('C') && !IsSpace('G');
    assert StripStart(s) == 1 + StripStart(s[1..]) && StripStart(s[1..]) == 0;
    assert StripEnd(s) == StripEnd(s[..8]) == 8;
    assert Strip(s) == s[1..8] == "COOKING";
  }

  lemma CanonicalThird()
    ensures Canonical(" python") == "python"
  {
    var s := " python";
    assert IsSpace(' ') && !IsSpace('p') && !IsSpace('n');
    assert StripStart(s) == 1 + StripStart(s[1..]) && StripStart(s[1..]) == 0;
    assert StripEnd(s) == 7;
    assert Strip(s) == s[1..7] == "python";
  }
}
