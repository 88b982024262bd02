/** What `add` promises, proved about the model in Calculator. */
module CalculatorProperties {
  import opened Wrappers
  import opened Strings
  import opened Integers
  import opened Calculator

  // ---- the stages compose over concatenation ----

  lemma {:induction false} NonEmptyAppend(a: seq<string>, b: seq<string>)
    ensures NonEmpty(a + b) == NonEmpty(a) + NonEmpty(b)
    decreases |a|
  {
    if a == [] {
      assert a + b == b;
    } else {
      assert (a + b)[1..] == a[1..] + b;
      NonEmptyAppend(a[1..], b);
    }
  }

  /** Pieces that are all non-empty pass the filter unchanged. */
  lemma {:induction false} NonEmptyKeepsAll(xs: seq<string>)
    requires forall k :: 0 <= k < |xs| ==> xs[k] != []
    ensures NonEmpty(xs) == xs
    decreases |xs|
  {
    if xs != [] {
      NonEmptyKeepsAll(xs[1..]);
    }
  }

  lemma NegativesOfCons(x: int, t: seq<int>)
    ensures NegativesOf([x] + t) == (if x < 0 then [x] else []) + NegativesOf(t)
  {
    assert ([x] + t)[0] == x;
    assert ([x] + t)[1..] == t;
  }

  /** The negatives keep their left-to-right order: filtering a concatenation concatenates the filtered parts. */
  lemma {:induction false} NegativesOfAppend(a: seq<int>, b: seq<int>)
    ensures NegativesOf(a + b) == NegativesOf(a) + NegativesOf(b)
    decreases |a|
  {
    if a == [] {
      assert a + b == b;
    } else {
      var head := if a[0] < 0 then [a[0]] else [];
      assert NegativesOf(a[1..] + b) == NegativesOf(a[1..]) + NegativesOf(b) by {
        NegativesOfAppend(a[1..], b);
      }
      assert NegativesOf(a + b) == head + NegativesOf(a[1..] + b) by {
        assert a + b == [a[0]] + (a[1..] + b);
        NegativesOfCons(a[0], a[1..] + b);
      }
      assert NegativesOf(a) == head + NegativesOf(a[1..]) by {
        assert a == [a[0]] + a[1..];
        NegativesOfCons(a[0], a[1..]);
      }
      AppendChain(head, NegativesOf(a + b), NegativesOf(a), NegativesOf(a[1..] + b), NegativesOf(a[1..]), NegativesOf(b));
    }
  }

  lemma AppendChain(head: seq<int>, whole: seq<int>, left: seq<int>, tail: seq<int>, x: seq<int>, y: seq<int>)
    requires whole == head + tail && tail == x + y && left == head + x
    ensures whole == left + y
  {
  }

  lemma {:induction false} SumAppend(a: seq<int>, b: seq<int>)
    ensures Sum(a + b) == Sum(a) + Sum(b)
    decreases |a|
  {
    if a == [] {
      assert a + b == b;
    } else {
      assert (a + b)[1..] == a[1..] + b;
      SumAppend(a[1..], b);
    }
  }

  // ---- delimiter resolution ----

  /** Python's `startswith` on the two- and three-character prefixes, character by character. */
  lemma StartsWithChars(s: string)
    ensures "//" <= s <==> |s| >= 2 && s[0] == '/' && s[1] == '/'
    ensures "//\n" <= s <==> |s| >= 3 && s[0] == '/' && s[1] == '/' && s[2] == '\n'
  {
    if |s| >= 2 { assert s[..2] == [s[0], s[1]]; }
    if |s| >= 3 { assert s[..3] == [s[0], s[1], s[2]]; }
  }

  /** A directive `//d\n` selects `d` and leaves exactly the text after the newline as the body. */
  lemma ResolveDirective(d: string, body: string)
    requires '\n' !in d
    ensures ResolveDelimiter("//" + d + "\n" + body) == Success((d, body))
  {
    var input := "//" + d + "\n" + body;
    OccursAtSingle(input, '\n');
    assert input[2 + |d|] == '\n';
    assert forall j :: 0 <= j < 2 + |d| ==> input[j] != '\n';
    assert input[2 + |d|..2 + |d| + 1] == "\n";
    FindAt(input, "\n", 2 + |d|);
    assert input[2..2 + |d|] == d;
    assert input[2 + |d| + 1..] == body;
  }

  /** Without a `//` prefix the comma is the delimiter and the whole input is parsed. */
  lemma AddDefault(s: string)
    requires !("//" <= s)
    ensures Add(s) == Evaluate(Tokens(s, DefaultDelimiter))
  {
    if s == [] {
      assert Split("", DefaultDelimiter) == [""];
      assert NonEmpty([""]) == [];
    }
  }

  /** With a directive, only the text after its newline is parsed, on the chosen delimiter. */
  lemma AddCustom(d: string, body: string)
    requires d != [] && '\n' !in d
    ensures Add("//" + d + "\n" + body) == Evaluate(Tokens(body, d))
  {
    ResolveDirective(d, body);
  }

  /** `split("")` is reached exactly when the directive names no delimiter. */
  lemma AddEmptySeparatorIff(input: string)
    ensures Add(input) == FormatError(EmptySeparator) <==> "//\n" <= input
  {
    StartsWithChars(input);
    if "//\n" <= input {
      ResolveDirective("", input[3..]);
      assert input == "//" + "" + "\n" + input[3..];
    } else if "//" <= input && '\n' in input {
      var r := ResolveDelimiter(input);
      var d, body := r.value.0, r.value.1;
      assert input == "//" + d + "\n" + body;
      assert input[2] == (d + "\n")[0];
    }
  }

  // ---- sums of joined numbers ----

  /** Joining decimals on a delimiter that starts with neither a digit nor `-` and splitting again gives the decimals back. */
  lemma TokensOfJoined(xs: seq<int>, d: string)
    requires d != [] && '\n' !in d && !IsDigit(d[0]) && d[0] != '-'
    ensures Tokens(Join(Decimals(xs), d), d) == Decimals(xs)
  {
    var strs := Decimals(xs);
    forall k | 0 <= k < |strs| ensures '\n' !in strs[k] && d[0] !in strs[k] && strs[k] != [] {
      assert strs[k] == IntToString(xs[k]);
    }
    JoinExcludes(strs, d, '\n');
    if xs == [] {
      assert Split("", d) == [""];
      assert NonEmpty([""]) == [];
    } else {
      SplitJoin(strs, d);
      NonEmptyKeepsAll(strs);
    }
  }

  /**
   * The decimals of `xs` joined on a custom delimiter under a directive sum to
   * `Sum(xs)` when none is negative, and otherwise report every negative in order.
   */
  lemma AddJoined(xs: seq<int>, d: string)
    requires d != [] && '\n' !in d && !IsDigit(d[0]) && d[0] != '-'
    ensures (forall k :: 0 <= k < |xs| ==> xs[k] >= 0) ==> Add("//" + d + "\n" + Join(Decimals(xs), d)) == Ok(Sum(xs))
    ensures (exists k :: 0 <= k < |xs| && xs[k] < 0) ==> Add("//" + d + "\n" + Join(Decimals(xs), d)) == Negatives(NegativesOf(xs))
  {
    AddCustom(d, Join(Decimals(xs), d));
    TokensOfJoined(xs, d);
    ParseAllDecimals(xs);
  }

  /** Numbers joined by commas never look like a directive. */
  lemma CommaJoinedIsPlain(xs: seq<int>)
    ensures !("//" <= Join(Decimals(xs), ","))
  {
    var strs := Decimals(xs);
    forall k | 0 <= k < |strs| ensures '/' !in strs[k] {
      assert strs[k] == IntToString(xs[k]);
    }
    JoinExcludes(strs, ",", '/');
    StartsWithChars(Join(strs, ","));
  }

  /** The same with the default comma and no directive. */
  lemma AddCommaJoined(xs: seq<int>)
    ensures (forall k :: 0 <= k < |xs| ==> xs[k] >= 0) ==> Add(Join(Decimals(xs), ",")) == Ok(Sum(xs))
    ensures (exists k :: 0 <= k < |xs| && xs[k] < 0) ==> Add(Join(Decimals(xs), ",")) == Negatives(NegativesOf(xs))
  {
    CommaJoinedIsPlain(xs);
    AddDefault(Join(Decimals(xs), ","));
    TokensOfJoined(xs, ",");
    ParseAllDecimals(xs);
  }

  // ---- newlines act as the delimiter ----

  lemma TokensNewline(body: string, d: string)
    requires d != [] && '\n' !in d
    ensures Tokens(Replace(body, '\n', d), d) == Tokens(body, d)
  {
  }

  /** Rewriting newlines to commas cannot create a directive. */
  lemma ReplaceKeepsPlain(s: string)
    requires !("//" <= s)
    ensures !("//" <= Replace(s, '\n', ","))
  {
    var t := Replace(s, '\n', ",");
    StartsWithChars(s);
    StartsWithChars(t);
    if |s| >= 2 {
      var h0, h1 := Replace([s[0]], '\n', ","), Replace([s[1]], '\n', ",");
      assert s == [s[0]] + ([s[1]] + s[2..]);
      ReplaceAppend([s[0]], [s[1]] + s[2..], '\n', ",");
      ReplaceAppend([s[1]], s[2..], '\n', ",");
      assert t == h0 + (h1 + Replace(s[2..], '\n', ","));
    } else if s != [] {
      assert |t| <= 1;
    }
  }

  /** Without a directive, writing a comma for each newline changes nothing. */
  lemma AddNewlineAsComma(s: string)
    requires !("//" <= s)
    ensures Add(Replace(s, '\n', ",")) == Add(s)
  {
    ReplaceKeepsPlain(s);
    AddDefault(s);
    AddDefault(Replace(s, '\n', ","));
    TokensNewline(s, DefaultDelimiter);
  }

  /** After a directive, writing the delimiter for each newline of the body changes nothing. */
  lemma AddNewlineAsDelimiter(d: string, body: string)
    requires '\n' !in d
    ensures Add("//" + d + "\n" + Replace(body, '\n', d)) == Add("//" + d + "\n" + body)
  {
    ResolveDirective(d, body);
    ResolveDirective(d, Replace(body, '\n', d));
    if d != [] {
      TokensNewline(body, d);
    }
  }

  /** For a one-character delimiter, the two-stage rewrite-then-split is one split at the delimiter and at newlines. */
  lemma TokensSplitOnBoth(body: string, c: char)
    ensures Tokens(body, [c]) == NonEmpty(SplitOnAny(body, {c, '\n'}))
  {
    ReplaceThenSplit(body, c);
  }

  // ---- empty pieces add nothing ----

  /** With a one-character delimiter, the tokens around one delimiter are the tokens of each side. */
  lemma TokensAround(a: string, c: char, b: string)
    ensures Tokens(a + [c] + b, [c]) == Tokens(a, [c]) + Tokens(b, [c])
  {
    ReplaceAppend(a + [c], b, '\n', [c]);
    ReplaceAppend(a, [c], '\n', [c]);
    assert Replace([c], '\n', [c]) == [c];
    var ra, rb := Replace(a, '\n', [c]), Replace(b, '\n', [c]);
    SplitAround(ra, c, rb);
    NonEmptyAppend(Split(ra, [c]), Split(rb, [c]));
  }

  lemma TokensOfNothing(d: string)
    requires d != []
    ensures Tokens("", d) == []
  {
    assert Split("", d) == [""];
    assert NonEmpty([""]) == [];
  }

  /** Two plain inputs with the same tokens add up alike. */
  lemma AddSameTokens(s: string, t: string)
    requires !("//" <= s) && !("//" <= t)
    requires Tokens(s, DefaultDelimiter) == Tokens(t, DefaultDelimiter)
    ensures Add(s) == Add(t)
  {
    AddDefault(s);
    AddDefault(t);
  }

  lemma TokensTrailing(s: string, c: char)
    ensures Tokens(s + [c], [c]) == Tokens(s, [c])
  {
    TokensAround(s, c, "");
    assert s + [c] + "" == s + [c];
    TokensOfNothing([c]);
  }

  lemma TokensLeading(s: string, c: char)
    ensures Tokens([c] + s, [c]) == Tokens(s, [c])
  {
    TokensAround("", c, s);
    assert "" + [c] + s == [c] + s;
    TokensOfNothing([c]);
  }

  lemma DoubledText(a: string, c: char, b: string)
    ensures a + [c] + ([c] + b) == a + [c, c] + b
  {
  }

  lemma TokensDoubled(a: string, c: char, b: string)
    ensures Tokens(a + [c, c] + b, [c]) == Tokens(a + [c] + b, [c])
  {
    TokensAround(a, c, [c] + b);
    DoubledText(a, c, b);
    TokensLeading(b, c);
    TokensAround(a, c, b);
  }

  /** A trailing comma adds nothing. */
  lemma AddTrailingComma(s: string)
    requires !("//" <= s)
    ensures Add(s + ",") == Add(s)
  {
    StartsWithChars(s);
    StartsWithChars(s + ",");
    TokensTrailing(s, ',');
    AddSameTokens(s + ",", s);
  }

  /** A leading comma adds nothing. */
  lemma AddLeadingComma(s: string)
    requires !("//" <= s)
    ensures Add("," + s) == Add(s)
  {
    StartsWithChars("," + s);
    TokensLeading(s, ',');
    AddSameTokens("," + s, s);
  }

  /** Two adjacent commas act as one. */
  lemma AddDoubledComma(a: string, b: string)
    requires !("//" <= a)
    ensures Add(a + ",," + b) == Add(a + "," + b)
  {
    StartsWithChars(a);
    StartsWithChars(a + ",," + b);
    StartsWithChars(a + "," + b);
    TokensDoubled(a, ',', b);
    AddSameTokens(a + ",," + b, a + "," + b);
  }

  /** A directive followed by nothing adds up to zero. */
  lemma AddEmptyBody(d: string)
    requires d != [] && '\n' !in d
    ensures Add("//" + d + "\n") == Ok(0)
  {
    AddCustom(d, "");
    assert "//" + d + "\n" + "" == "//" + d + "\n";
    TokensOfNothing(d);
  }
}
