/** Keyword search (`App::search`): the keyword is split on single spaces,
    each fragment PHP's `empty()` does not reject becomes one
    `message LIKE ?` condition whose parameter is the fragment with its LIKE
    metacharacters escaped by `!` and wrapped in `%…%`, and the rows are cut
    to `App::SEARCH_LIMIT`. The query appends ` ESCAPE '!'` once, after the
    conditions joined with `AND`, so SQLite reads only the last condition
    with that escape character. `AsWrittenConditions` models this and is
    what the search sends; `SearchConditions` gives every condition the
    escape character and `CorrectedSearchArticles` sends those instead. */
module Search {
  import opened Options
  import opened Articles

  /** `App::SEARCH_LIMIT`. */
  const SearchLimit: nat := 20

  /** The `ESCAPE` character of the query. */
  const EscapeChar: char := '!'

  // ----- explode(" ", …) and implode(" ", …) -----

  /** `explode(" ", s)`: the pieces between single spaces, so that an empty
      string gives one empty piece and two adjacent spaces give an empty
      piece between them. */
  function Split(s: string): (r: seq<string>)
    ensures |r| >= 1
    ensures forall i | 0 <= i < |r| :: ' ' !in r[i]
  {
    if s == [] then [""]
    else
      var rest := Split(s[1..]);
      if s[0] == ' ' then [""] + rest
      else [[s[0]] + rest[0]] + rest[1..]
  }

  /** `implode(" ", fs)`. */
  function Join(fs: seq<string>): string
    requires |fs| >= 1
  {
    if |fs| == 1 then fs[0] else fs[0] + " " + Join(fs[1..])
  }

  lemma {:induction false} JoinConsHead(c: char, fs: seq<string>)
    requires |fs| >= 1
    ensures Join([[c] + fs[0]] + fs[1..]) == [c] + Join(fs)
  {
  }

  /** Joining the pieces with spaces gives back the keyword. */
  lemma {:induction false} JoinSplit(s: string)
    ensures Join(Split(s)) == s
  {
    if s != [] {
      var rest := Split(s[1..]);
      JoinSplit(s[1..]);
      if s[0] == ' ' {
        assert ([""] + rest)[1..] == rest;
        assert s == [' '] + s[1..];
      } else {
        JoinConsHead(s[0], rest);
        assert s == [s[0]] + s[1..];
      }
    }
  }

  lemma {:induction false} SplitNoSpace(s: string)
    requires ' ' !in s
    ensures Split(s) == [s]
  {
    if s != [] {
      assert ' ' !in s[1..] by {
        forall i | 0 <= i < |s[1..]| ensures s[1..][i] != ' ' {
          assert s[1..][i] == s[i + 1];
        }
      }
      SplitNoSpace(s[1..]);
      assert s == [s[0]] + s[1..];
    }
  }

  lemma {:induction false} SplitAfterPiece(a: string, b: string)
    requires ' ' !in a
    ensures Split(a + " " + b) == [a] + Split(b)
  {
    if a == [] {
      assert a + " " + b == [' '] + b;
      assert (a + " " + b)[1..] == b;
    } else {
      assert (a + " " + b)[1..] == a[1..] + " " + b;
      assert ' ' !in a[1..] by {
        forall i | 0 <= i < |a[1..]| ensures a[1..][i] != ' ' {
          assert a[1..][i] == a[i + 1];
        }
      }
      SplitAfterPiece(a[1..], b);
      assert [a[0]] + a[1..] == a;
    }
  }

  /** Splitting pieces joined with spaces gives back the pieces, provided
      no piece holds a space. */
  lemma {:induction false} SplitJoin(fs: seq<string>)
    requires |fs| >= 1
    requires forall i | 0 <= i < |fs| :: ' ' !in fs[i]
    ensures Split(Join(fs)) == fs
  {
    if |fs| == 1 {
      SplitNoSpace(fs[0]);
    } else {
      SplitJoin(fs[1..]);
      SplitAfterPiece(fs[0], Join(fs[1..]));
      assert fs == [fs[0]] + fs[1..];
    }
  }

  // ----- empty() -----

  /** PHP's `empty()` on a string: true for "" and "0" only. */
  predicate IsPhpEmpty(f: string) {
    f == "" || f == "0"
  }

  /** The fragments that `continue` does not skip, in order. */
  function KeepNonEmpty(fs: seq<string>): (r: seq<string>)
    ensures forall i | 0 <= i < |r| :: !IsPhpEmpty(r[i])
    ensures forall f | !IsPhpEmpty(f) :: multiset(r)[f] == multiset(fs)[f]
    ensures r == [] <==> forall i | 0 <= i < |fs| :: IsPhpEmpty(fs[i])
  {
    if fs == [] then []
    else
      assert fs == [fs[0]] + fs[1..];
      var rest := KeepNonEmpty(fs[1..]);
      if IsPhpEmpty(fs[0]) then rest else [fs[0]] + rest
  }

  /** Filtering distributes over concatenation, so the kept fragments come
      in the order they were typed: with the multiplicities above, the kept
      part of one fragment is that fragment or nothing. */
  lemma {:induction false} KeepNonEmptyAppend(a: seq<string>, b: seq<string>)
    ensures KeepNonEmpty(a + b) == KeepNonEmpty(a) + KeepNonEmpty(b)
  {
    if a == [] {
      assert a + b == b;
    } else {
      assert (a + b)[0] == a[0] && (a + b)[1..] == a[1..] + b;
      KeepNonEmptyAppend(a[1..], b);
    }
  }

  /** The keyword fragments that become search conditions. */
  function Fragments(keyword: string): seq<string> {
    KeepNonEmpty(Split(keyword))
  }

  // ----- the LIKE escape -----

  predicate IsLikeMeta(c: char) {
    c == '!' || c == '_' || c == '%'
  }

  /** Some character of `f` is `!`, `_` or `%`. */
  predicate HasLikeMeta(f: string) {
    exists i :: 0 <= i < |f| && IsLikeMeta(f[i])
  }

  /** The number of characters of `f` that are `!`, `_` or `%`. */
  function MetaCount(f: string): (n: nat)
    ensures n <= |f|
    ensures n == 0 <==> !HasLikeMeta(f)
  {
    if f == [] then 0
    else
      var rest := MetaCount(f[1..]);
      assert forall i | 0 <= i < |f[1..]| :: f[1..][i] == f[i + 1];
      assert HasLikeMeta(f) <==> IsLikeMeta(f[0]) || HasLikeMeta(f[1..]) by {
        if HasLikeMeta(f) && !IsLikeMeta(f[0]) {
          var i :| 0 <= i < |f| && IsLikeMeta(f[i]);
          assert IsLikeMeta(f[1..][i - 1]);
        }
        if HasLikeMeta(f[1..]) {
          var i :| 0 <= i < |f[1..]| && IsLikeMeta(f[1..][i]);
          assert IsLikeMeta(f[i + 1]);
        }
      }
      (if IsLikeMeta(f[0]) then 1 else 0) + rest
  }

  /** `preg_replace('/(?=[!_%])/', '!', f)`: an escape character before each
      `!`, `_` and `%`, and nothing else added. */
  function Escape(f: string): (r: string)
    ensures |r| == |f| + MetaCount(f)
    ensures !HasLikeMeta(f) ==> r == f
  {
    if f == [] then []
    else
      var tail := Escape(f[1..]);
      assert f == [f[0]] + f[1..];
      assert !HasLikeMeta(f) ==> !HasLikeMeta(f[1..]) by {
        if HasLikeMeta(f[1..]) {
          var i :| 0 <= i < |f[1..]| && IsLikeMeta(f[1..][i]);
          assert IsLikeMeta(f[i + 1]);
        }
      }
      if IsLikeMeta(f[0]) then [EscapeChar, f[0]] + tail else [f[0]] + tail
  }

  /** Deleting each escape character, keeping the character after it,
      gives the fragment back. */
  lemma {:induction false} UnescapeEscape(f: string)
    ensures Unescape(Escape(f)) == f
  {
    if f != [] {
      UnescapeEscape(f[1..]);
      var tail := Escape(f[1..]);
      if IsLikeMeta(f[0]) {
        assert ([EscapeChar, f[0]] + tail)[2..] == tail;
      } else {
        assert ([f[0]] + tail)[1..] == tail;
      }
      assert f == [f[0]] + f[1..];
    }
  }

  /** The escaping works character by character: a `!`, `_` or `%` gains
      one escape character in front of it, any other character is kept as
      it is. */
  lemma EscapeOne(c: char)
    ensures Escape([c]) == if IsLikeMeta(c) then [EscapeChar, c] else [c]
  {
    assert [c][1..] == [];
  }

  /** Escaping a concatenation escapes each part, so with `EscapeOne` the
      result is fixed character by character. */
  lemma {:induction false} EscapeAppend(f: string, g: string)
    ensures Escape(f + g) == Escape(f) + Escape(g)
  {
    if f == [] {
      assert f + g == g;
    } else {
      assert (f + g)[0] == f[0] && (f + g)[1..] == f[1..] + g;
      EscapeAppend(f[1..], g);
    }
  }

  /** Deletes each escape character and keeps the character after it. */
  function Unescape(s: string): string {
    if s == [] then []
    else if s[0] == EscapeChar && |s| >= 2 then [s[1]] + Unescape(s[2..])
    else [s[0]] + Unescape(s[1..])
  }

  // ----- how SQLite reads a LIKE pattern -----

  /** One element of a LIKE pattern as SQLite reads it. */
  datatype LikeToken = Literal(c: char) | AnyChar | AnyString

  function Cons(t: LikeToken, rest: Option<seq<LikeToken>>): Option<seq<LikeToken>> {
    match rest
    case Some(ts) => Some([t] + ts)
    case None => None
  }

  /** How many pattern characters the next token takes: two for the escape
      character and the character it protects, one otherwise. */
  function Width(p: string, esc: Option<char>): nat
    requires p != []
  {
    if esc == Some(p[0]) then 2 else 1
  }

  /** The next token of a pattern with escape character `esc`: the escape
      character makes the next character literal, `%` matches any string,
      `_` any one character, and every other character is literal. */
  function Head(p: string, esc: Option<char>): LikeToken
    requires p != [] && Width(p, esc) <= |p|
  {
    if esc == Some(p[0]) then Literal(p[1])
    else if p[0] == '%' then AnyString
    else if p[0] == '_' then AnyChar
    else Literal(p[0])
  }

  /** How SQLite reads a LIKE pattern with escape character `esc` (`None`
      when the `LIKE` has no `ESCAPE` clause), token by token. A pattern
      ending in a lone escape character matches nothing (`None`). */
  function ParseLike(p: string, esc: Option<char>): Option<seq<LikeToken>>
    decreases |p|
  {
    if p == [] then Some([])
    else if Width(p, esc) > |p| then None
    else Cons(Head(p, esc), ParseLike(p[Width(p, esc)..], esc))
  }

  /** Every character of `f` taken literally. */
  function Literals(f: string): (r: seq<LikeToken>)
    ensures |r| == |f|
  {
    if f == [] then [] else [Literal(f[0])] + Literals(f[1..])
  }

  lemma {:induction false} LiteralsAppend(f: string, g: string)
    ensures Literals(f + g) == Literals(f) + Literals(g)
  {
    if f == [] {
      assert f + g == g;
    } else {
      assert (f + g)[0] == f[0] && (f + g)[1..] == f[1..] + g;
      LiteralsAppend(f[1..], g);
    }
  }

  /** What a pattern character stands for when no escape character is in
      force. */
  function RawToken(c: char): LikeToken {
    if c == '%' then AnyString else if c == '_' then AnyChar else Literal(c)
  }

  /** Every character of `p` as it reads with no escape character. */
  function RawTokens(p: string): (r: seq<LikeToken>)
    ensures |r| == |p|
  {
    if p == [] then [] else [RawToken(p[0])] + RawTokens(p[1..])
  }

  lemma {:induction false} RawTokensAppend(p: string, q: string)
    ensures RawTokens(p + q) == RawTokens(p) + RawTokens(q)
  {
    if p == [] {
      assert p + q == q;
    } else {
      assert (p + q)[0] == p[0] && (p + q)[1..] == p[1..] + q;
      RawTokensAppend(p[1..], q);
    }
  }

  /** A fragment with no `!`, `_` or `%` reads literally even with no
      escape character. */
  lemma {:induction false} RawIsLiteral(f: string)
    requires !HasLikeMeta(f)
    ensures RawTokens(f) == Literals(f)
  {
    if f != [] {
      assert MetaCount(f) == 0;
      assert !IsLikeMeta(f[0]) && MetaCount(f[1..]) == 0;
      RawIsLiteral(f[1..]);
    }
  }

  /** Without an escape character every `!` is an ordinary character and
      every `%` and `_` is a wildcard. */
  lemma {:induction false} ParseUnescaped(p: string)
    ensures ParseLike(p, None) == Some(RawTokens(p))
  {
    if p != [] {
      ParseUnescaped(p[1..]);
    }
  }

  /** An escaped fragment reads, under `ESCAPE '!'`, as the fragment's
      characters taken literally: no `%` or `_` of the keyword acts as a
      wildcard. */
  lemma {:induction false} EscapeIsLiteral(f: string)
    ensures ParseLike(Escape(f), Some(EscapeChar)) == Some(Literals(f))
  {
    if f != [] {
      EscapeIsLiteral(f[1..]);
      var tail := Escape(f[1..]);
      if IsLikeMeta(f[0]) {
        assert ([EscapeChar, f[0]] + tail)[2..] == tail;
      } else {
        assert ([f[0]] + tail)[1..] == tail;
      }
    }
  }

  /** Appending to a pattern does not change its first token. */
  lemma HeadAppend(p: string, q: string, esc: Option<char>)
    requires p != [] && Width(p, esc) <= |p|
    ensures p + q != [] && Width(p + q, esc) == Width(p, esc) <= |p + q|
    ensures Head(p + q, esc) == Head(p, esc)
    ensures (p + q)[Width(p, esc)..] == p[Width(p, esc)..] + q
  {
    assert (p + q)[0] == p[0];
    assert Width(p, esc) == 2 ==> (p + q)[1] == p[1];
  }

  lemma {:induction false} ParseLikeAppend(p: string, q: string, esc: Option<char>)
    requires ParseLike(p, esc).Some? && ParseLike(q, esc).Some?
    ensures ParseLike(p + q, esc) == Some(ParseLike(p, esc).value + ParseLike(q, esc).value)
  {
    if p == [] {
      assert p + q == q;
      assert [] + ParseLike(q, esc).value == ParseLike(q, esc).value;
    } else {
      var n := Width(p, esc);
      var tp := ParseLike(p[n..], esc).value;
      ParseLikeAppend(p[n..], q, esc);
      ParseLikeAppendStep(p, q, esc, tp, ParseLike(q, esc).value);
    }
  }

  /** The step of `ParseLikeAppend`: the first token of `p` stays in front
      of the tokens of the rest of `p`, with or without `q` after it. */
  lemma ParseLikeAppendStep(p: string, q: string, esc: Option<char>, tp: seq<LikeToken>, tq: seq<LikeToken>)
    requires p != [] && Width(p, esc) <= |p|
    requires ParseLike(p[Width(p, esc)..], esc) == Some(tp)
    requires ParseLike(p[Width(p, esc)..] + q, esc) == Some(tp + tq)
    ensures ParseLike(p, esc) == Some([Head(p, esc)] + tp)
    ensures ParseLike(p + q, esc) == Some([Head(p, esc)] + tp + tq)
  {
    UnfoldAppend(p, q, esc);
    assert [Head(p, esc)] + (tp + tq) == [Head(p, esc)] + tp + tq;
  }

  /** `p + q` starts with the first token of `p`. */
  lemma UnfoldAppend(p: string, q: string, esc: Option<char>)
    requires p != [] && Width(p, esc) <= |p|
    ensures ParseLike(p + q, esc) == Cons(Head(p, esc), ParseLike(p[Width(p, esc)..] + q, esc))
  {
    HeadAppend(p, q, esc);
  }

  // ----- the search conditions -----

  /** The parameter bound to one `message LIKE ?` condition. */
  function SearchPattern(f: string): string {
    "%" + Escape(f) + "%"
  }

  /** "The message contains `f`": any string, `f`'s characters literally,
      any string. */
  function ContainsTokens(f: string): seq<LikeToken> {
    [AnyString] + Literals(f) + [AnyString]
  }

  /** Under `ESCAPE '!'` a search parameter means "contains the fragment". */
  lemma SearchPatternMeaning(f: string)
    ensures ParseLike(SearchPattern(f), Some(EscapeChar)) == Some(ContainsTokens(f))
  {
    var esc := Some(EscapeChar);
    EscapeIsLiteral(f);
    assert ParseLike("%", esc) == Some([AnyString]) by {
      assert "%"[1..] == [];
      assert [AnyString] + [] == [AnyString];
    }
    ParseLikeAppend(Escape(f), "%", esc);
    assert ParseLike(Escape(f) + "%", esc) == Some(Literals(f) + [AnyString]);
    ParseLikeAppend("%", Escape(f) + "%", esc);
    assert SearchPattern(f) == "%" + (Escape(f) + "%");
    assert [AnyString] + (Literals(f) + [AnyString]) == [AnyString] + Literals(f) + [AnyString];
  }

  /** Read with no escape character, a search parameter keeps the inserted
      `!` as characters to match and its `%` and `_` become wildcards. */
  lemma SearchPatternUnescaped(f: string)
    ensures ParseLike(SearchPattern(f), None) == Some([AnyString] + RawTokens(Escape(f)) + [AnyString])
  {
    var e := Escape(f);
    ParseUnescaped(SearchPattern(f));
    RawTokensAppend("%" + e, "%");
    RawTokensAppend("%", e);
    assert RawTokens("%") == [AnyString];
  }

  /** Read with no escape character, a search parameter means "contains the
      fragment" exactly when the fragment has no `!`, `_` or `%`. */
  lemma UnescapedContainsIff(f: string)
    ensures ParseLike(SearchPattern(f), None) == Some(ContainsTokens(f)) <==> !HasLikeMeta(f)
  {
    SearchPatternUnescaped(f);
    if HasLikeMeta(f) {
      assert |[AnyString] + RawTokens(Escape(f)) + [AnyString]| != |ContainsTokens(f)|;
    } else {
      RawIsLiteral(f);
    }
  }

  /** One `message LIKE ?` condition: the parameter bound to it and the
      escape character SQLite reads it with, if any. */
  datatype Condition = Like(pattern: string, escape: Option<char>)

  function Meaning(c: Condition): Option<seq<LikeToken>> {
    ParseLike(c.pattern, c.escape)
  }

  /** The escape character of condition `i` of `n` as written: ` ESCAPE '!'`
      follows the last `message LIKE ?` only. */
  function AsWrittenEscape(i: int, n: int): Option<char> {
    if i == n - 1 then Some(EscapeChar) else None
  }

  /** One condition per fragment, in the order of `$wheres` and `$params`;
      the escape character goes to the condition that ends the list. */
  function LikeEach(fs: seq<string>): (cs: seq<Condition>)
    ensures |cs| == |fs|
    ensures forall i | 0 <= i < |cs| :: cs[i] == Like(SearchPattern(fs[i]), AsWrittenEscape(i, |fs|))
  {
    if fs == [] then []
    else
      var rest := LikeEach(fs[1..]);
      var head := Like(SearchPattern(fs[0]), if |fs| == 1 then Some(EscapeChar) else None);
      assert forall i | 0 < i < |fs| :: ([head] + rest)[i] == rest[i - 1] && fs[1..][i - 1] == fs[i];
      [head] + rest
  }

  lemma AsWrittenMeaning(fs: seq<string>, cs: seq<Condition>)
    requires |cs| == |fs|
    requires forall i | 0 <= i < |cs| :: cs[i] == Like(SearchPattern(fs[i]), AsWrittenEscape(i, |fs|))
    ensures |cs| > 0 ==> Meaning(cs[|cs| - 1]) == Some(ContainsTokens(fs[|cs| - 1]))
    ensures forall i | 0 <= i < |cs| - 1 ::
              Meaning(cs[i]) == Some([AnyString] + RawTokens(Escape(fs[i])) + [AnyString])
  {
    if cs != [] {
      SearchPatternMeaning(fs[|cs| - 1]);
    }
    forall i | 0 <= i < |cs| - 1
      ensures Meaning(cs[i]) == Some([AnyString] + RawTokens(Escape(fs[i])) + [AnyString])
    {
      SearchPatternUnescaped(fs[i]);
    }
  }

  /** The conditions as the query string builds them: ` ESCAPE '!'` follows
      the last `message LIKE ?` only, so the earlier conditions have no
      escape character. */
  function AsWrittenConditions(keyword: string): (cs: seq<Condition>)
    ensures |cs| == |Fragments(keyword)|
    ensures forall i | 0 <= i < |cs| ::
              cs[i].pattern == SearchPattern(Fragments(keyword)[i])
              && (cs[i].escape.Some? <==> i == |cs| - 1)
    ensures |cs| > 0 ==> Meaning(cs[|cs| - 1]) == Some(ContainsTokens(Fragments(keyword)[|cs| - 1]))
    ensures forall i | 0 <= i < |cs| - 1 ::
              Meaning(cs[i]) == Some([AnyString] + RawTokens(Escape(Fragments(keyword)[i])) + [AnyString])
  {
    var fs := Fragments(keyword);
    var cs := LikeEach(fs);
    AsWrittenMeaning(fs, cs);
    cs
  }

  /** As written, a condition means "contains its fragment" exactly when it
      is the last one or its fragment has no `!`, `_` or `%`. */
  lemma AsWrittenContainsIff(keyword: string, i: int)
    requires 0 <= i < |Fragments(keyword)|
    ensures Meaning(AsWrittenConditions(keyword)[i]) == Some(ContainsTokens(Fragments(keyword)[i]))
            <==> i == |Fragments(keyword)| - 1 || !HasLikeMeta(Fragments(keyword)[i])
  {
    if i < |Fragments(keyword)| - 1 {
      UnescapedContainsIff(Fragments(keyword)[i]);
      SearchPatternUnescaped(Fragments(keyword)[i]);
    }
  }

  lemma ExampleSplit()
    ensures Split("a_b c") == ["a_b", "c"]
  {
    assert "a_b c" == "a_b" + " " + "c";
    SplitNoSpace("c");
    SplitAfterPiece("a_b", "c");
    assert ["a_b"] + ["c"] == ["a_b", "c"];
  }

  lemma ExampleFragments()
    ensures Fragments("a_b c") == ["a_b", "c"]
  {
    var fs := ["a_b", "c"];
    ExampleSplit();
    assert KeepNonEmpty(fs) == fs by {
      assert fs[1..] == ["c"] && ["c"][1..] == [];
      assert !IsPhpEmpty(fs[0]) && !IsPhpEmpty(fs[1]);
    }
  }

  lemma ExamplePattern()
    ensures SearchPattern("a_b") == "%a!_b%"
    ensures RawTokens(Escape("a_b")) == [Literal('a'), Literal('!'), AnyChar, Literal('b')]
  {
    assert Escape("b") == "b";
    assert "_b"[1..] == "b";
    assert Escape("_b") == "!_b";
    assert "a_b"[1..] == "_b";
    assert Escape("a_b") == "a!_b";
  }

  /** The keyword "a_b c": its first condition, read without an escape
      character, asks for "a", "!", any one character, "b", so a message
      "a_b c" does not satisfy it. */
  lemma AsWrittenMissesUnderscore()
    ensures Fragments("a_b c") == ["a_b", "c"]
    ensures AsWrittenConditions("a_b c")[0] == Like("%a!_b%", None)
    ensures Meaning(AsWrittenConditions("a_b c")[0])
            == Some([AnyString] + [Literal('a'), Literal('!'), AnyChar, Literal('b')] + [AnyString])
    ensures Meaning(AsWrittenConditions("a_b c")[0]) != Some(ContainsTokens("a_b"))
  {
    ExampleFragments();
    ExamplePattern();
    var k := "a_b c";
    var cs := AsWrittenConditions(k);
    assert |cs| == 2;
    assert cs[0].pattern == SearchPattern("a_b") && cs[0].escape == None;
    var middle := [Literal('a'), Literal('!'), AnyChar, Literal('b')];
    assert Meaning(cs[0]) == Some([AnyString] + middle + [AnyString]);
    assert |ContainsTokens("a_b")| == 5;
  }

  /** The conditions with ` ESCAPE '!'` on every `message LIKE ?`: the same
      parameters as written, each now meaning "contains its fragment". */
  function SearchConditions(keyword: string): (cs: seq<Condition>)
    ensures |cs| == |Fragments(keyword)|
    ensures forall i | 0 <= i < |cs| ::
              && cs[i].pattern == AsWrittenConditions(keyword)[i].pattern
              && Meaning(cs[i]) == Some(ContainsTokens(Fragments(keyword)[i]))
  {
    var fs := Fragments(keyword);
    var cs := EscapedEach(fs);
    AsWrittenPatterns(keyword);
    cs
  }

  /** The parameters of the conditions as written, without their meaning. */
  lemma AsWrittenPatterns(keyword: string)
    ensures |AsWrittenConditions(keyword)| == |Fragments(keyword)|
    ensures forall i | 0 <= i < |Fragments(keyword)| ::
              AsWrittenConditions(keyword)[i].pattern == SearchPattern(Fragments(keyword)[i])
  {
  }

  /** One condition per fragment, each with the escape character `!`. */
  function EscapedEach(fs: seq<string>): (cs: seq<Condition>)
    ensures |cs| == |fs|
    ensures forall i | 0 <= i < |cs| ::
              cs[i].pattern == SearchPattern(fs[i]) && Meaning(cs[i]) == Some(ContainsTokens(fs[i]))
  {
    if fs == [] then []
    else
      SearchPatternMeaning(fs[0]);
      [Like(SearchPattern(fs[0]), Some(EscapeChar))] + EscapedEach(fs[1..])
  }

  // ----- the search itself -----

  /** What the search page shows. */
  datatype SearchResult = SearchResult(articles: seq<Article>, searchLimited: bool)

  /** `count($articles) > App::SEARCH_LIMIT` and
      `array_slice($articles, 0, App::SEARCH_LIMIT)`: at most the first 20
      rows, in their order, and whether any were dropped. */
  function LimitRows(rows: seq<Article>): (r: SearchResult)
    ensures |r.articles| <= SearchLimit
    ensures r.articles <= rows
    ensures r.searchLimited <==> |rows| > SearchLimit
    ensures |r.articles| == (if r.searchLimited then SearchLimit else |rows|)
  {
    var limited := |rows| > SearchLimit;
    SearchResult(if limited then rows[..SearchLimit] else rows, limited)
  }

  /** `App::search`: `query` stands for the database, answering the
      conditions with the matching rows (newest first, at most 21 of them);
      it is consulted only when there is a condition, and it is asked with
      the conditions as the query string builds them. */
  function SearchArticles(keyword: string, query: seq<Condition> -> seq<Article>): (r: SearchResult)
    ensures |r.articles| <= SearchLimit
    ensures Fragments(keyword) == [] ==> r == SearchResult([], false)
    ensures Fragments(keyword) != [] ==>
              var rows := query(AsWrittenConditions(keyword));
              && (r.searchLimited <==> |rows| > SearchLimit)
              && r.articles <= rows
              && |r.articles| == (if r.searchLimited then SearchLimit else |rows|)
  {
    var cs := AsWrittenConditions(keyword);
    if cs != [] then LimitRows(query(cs)) else SearchResult([], false)
  }

  /** The search with ` ESCAPE '!'` on every condition: the same page
      except that the database is asked with conditions that each mean
      "contains its fragment". */
  function CorrectedSearchArticles(keyword: string, query: seq<Condition> -> seq<Article>): (r: SearchResult)
    ensures |r.articles| <= SearchLimit
    ensures Fragments(keyword) == [] ==> r == SearchResult([], false)
    ensures Fragments(keyword) != [] ==>
              var cs := SearchConditions(keyword);
              var rows := query(cs);
              && (forall i | 0 <= i < |cs| :: Meaning(cs[i]) == Some(ContainsTokens(Fragments(keyword)[i])))
              && (r.searchLimited <==> |rows| > SearchLimit)
              && r.articles <= rows
              && |r.articles| == (if r.searchLimited then SearchLimit else |rows|)
  {
    var cs := SearchConditions(keyword);
    if cs != [] then LimitRows(query(cs)) else SearchResult([], false)
  }

  /** A keyword with no usable fragment consults no database: the answer is
      the same whatever the database holds. */
  lemma NoConditionNoQuery(keyword: string, q1: seq<Condition> -> seq<Article>, q2: seq<Condition> -> seq<Article>)
    requires forall i | 0 <= i < |Split(keyword)| :: IsPhpEmpty(Split(keyword)[i])
    ensures SearchArticles(keyword, q1) == SearchArticles(keyword, q2) == SearchResult([], false)
  {
  }
}
