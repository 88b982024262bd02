/**
 * The string calculator `add`: resolve the delimiter, turn newlines into it,
 * split, drop empty pieces, parse every piece, refuse negatives, and sum.
 * Python's exceptions become the `Negatives` and `FormatError` outcomes.
 */
module Calculator {
  import opened Wrappers
  import opened Strings
  import opened Integers

  /** The three ways Python raises ValueError before the negative check. */
  datatype FormatKind =
    | MissingNewline               // `//` prefix with no newline: the two-way unpacking fails
    | EmptySeparator               // `//` directly followed by a newline: `split("")` fails
    | InvalidLiteral(token: string) // the leftmost token `int()` refuses

  datatype Outcome =
    | Ok(sum: int)
    | Negatives(values: seq<int>)
    | FormatError(kind: FormatKind)

  const DefaultDelimiter: string := ","
  const NegativePrefix: string := "Negative numbers not allowed: "

  /**
   * The delimiter and the body to parse. With a `//` prefix the delimiter is
   * the text between `//` and the first newline and the body is what follows
   * that newline; otherwise the delimiter is a comma and the body is the input.
   */
  function ResolveDelimiter(input: string): (r: Result<(string, string), FormatKind>)
    ensures !("//" <= input) ==> r == Success((DefaultDelimiter, input))
    ensures "//" <= input ==> (r.Success? <==> '\n' in input)
    ensures r.Success? && "//" <= input ==> input == "//" + r.value.0 + "\n" + r.value.1
    ensures r.Success? ==> '\n' !in r.value.0
    ensures r.Failure? ==> r.error == MissingNewline
  {
    if "//" <= input then
      match Find(input, "\n")
      case None =>
        NewlineAbsent(input);
        Failure(MissingNewline)
      case Some(i) =>
        DirectiveParts(input, i);
        Success((input[2..i], input[i + 1..]))
    else Success((DefaultDelimiter, input))
  }

  lemma NewlineAbsent(input: string)
    requires Find(input, "\n") == None
    ensures '\n' !in input
  {
    OccursAtSingle(input, '\n');
  }

  /** The first newline of an input that starts with `//` comes after the `//`. */
  lemma DirectiveParts(input: string, i: nat)
    requires "//" <= input && Find(input, "\n") == Some(i)
    ensures 2 <= i < |input|
    ensures '\n' !in input[2..i]
    ensures input == "//" + input[2..i] + "\n" + input[i + 1..]
  {
    assert input[..2] == "//";
    assert input[0] == '/' && input[1] == '/';
    NewlineAt(input, i);
    SplitAtNewline(input, i);
  }

  lemma NewlineAt(input: string, i: nat)
    requires Find(input, "\n") == Some(i)
    ensures i < |input| && input[i] == '\n' && '\n' !in input[..i]
  {
    OccursAtSingle(input, '\n');
  }

  lemma SplitAtNewline(input: string, i: nat)
    requires 2 <= i < |input| && input[..2] == "//" && input[i] == '\n'
    ensures input == "//" + input[2..i] + "\n" + input[i + 1..]
  {
    assert input[i..i + 1] == "\n";
    assert input == input[..2] + input[2..i] + input[i..i + 1] + input[i + 1..];
  }

  /** Python's `[t for t in pieces if t]`. */
  function NonEmpty(pieces: seq<string>): (r: seq<string>)
    ensures |r| <= |pieces|
    ensures forall k :: 0 <= k < |r| ==> r[k] != []
    ensures forall t :: t in r <==> t in pieces && t != []
    decreases |pieces|
  {
    if pieces == [] then []
    else (if pieces[0] == [] then [] else [pieces[0]]) + NonEmpty(pieces[1..])
  }

  /** The tokens of a body under delimiter `d`: newlines become `d`, the text is split on `d`, empty pieces go. */
  function Tokens(body: string, d: string): (ts: seq<string>)
    requires d != []
    ensures forall k :: 0 <= k < |ts| ==> ts[k] != []
  {
    NonEmpty(Split(Replace(body, '\n', d), d))
  }

  /** `int()` on every token in order; the first token it refuses is the failure. */
  function ParseAll(ts: seq<string>): (r: Result<seq<int>, string>)
    ensures r.Success? <==> forall k :: 0 <= k < |ts| ==> IsIntLiteral(ts[k])
    ensures r.Success? ==> |r.value| == |ts| && forall k :: 0 <= k < |ts| ==> ParseInt(ts[k]) == Some(r.value[k])
    ensures r.Failure? ==> exists k :: 0 <= k < |ts| && ts[k] == r.error && !IsIntLiteral(ts[k]) && forall j :: 0 <= j < k ==> IsIntLiteral(ts[j])
    decreases |ts|
  {
    if ts == [] then Success([])
    else
      match ParseInt(ts[0])
      case None => Failure(ts[0])
      case Some(n) =>
        match ParseAll(ts[1..])
        case Failure(t) => Failure(t)
        case Success(ns) => Success([n] + ns)
  }

  /** Python's `[n for n in numbers if n < 0]`. */
  function NegativesOf(xs: seq<int>): (r: seq<int>)
    ensures |r| <= |xs|
    ensures forall v :: v in r <==> v in xs && v < 0
    ensures r == [] <==> forall k :: 0 <= k < |xs| ==> xs[k] >= 0
    decreases |xs|
  {
    if xs == [] then []
    else (if xs[0] < 0 then [xs[0]] else []) + NegativesOf(xs[1..])
  }

  function Sum(xs: seq<int>): (r: int)
    ensures (forall k :: 0 <= k < |xs| ==> xs[k] >= 0) ==> r >= 0
    decreases |xs|
  {
    if xs == [] then 0 else xs[0] + Sum(xs[1..])
  }

  /** Parse the tokens, report every negative if there is one, otherwise sum. */
  function Evaluate(ts: seq<string>): (r: Outcome)
    ensures r.Ok? ==> r.sum >= 0
    ensures r.Negatives? ==> r.values != [] && forall v :: v in r.values ==> v < 0
    ensures r.FormatError? ==> r.kind.InvalidLiteral? && r.kind.token in ts && !IsIntLiteral(r.kind.token)
    ensures r.FormatError? <==> ParseAll(ts).Failure?
    ensures r.FormatError? ==> r.kind == InvalidLiteral(ParseAll(ts).error)
    ensures ParseAll(ts).Success? ==>
      var ns := ParseAll(ts).value;
      && (r.Ok? <==> forall k :: 0 <= k < |ns| ==> ns[k] >= 0)
      && (r.Ok? ==> r.sum == Sum(ns))
      && (r.Negatives? ==> r.values == NegativesOf(ns))
  {
    match ParseAll(ts)
    case Failure(t) => FormatError(InvalidLiteral(t))
    case Success(nums) =>
      var negatives := NegativesOf(nums);
      if negatives != [] then Negatives(negatives) else Ok(Sum(nums))
  }

  /** The calculator's `add`. */
  function Add(input: string): (r: Outcome)
    ensures input == [] ==> r == Ok(0)
    ensures r.Ok? ==> r.sum >= 0
    ensures r.Negatives? ==> r.values != [] && forall v :: v in r.values ==> v < 0
    ensures r == FormatError(MissingNewline) <==> "//" <= input && '\n' !in input
  {
    if input == [] then Ok(0)
    else
      match ResolveDelimiter(input)
      case Failure(e) => FormatError(e)
      case Success((d, body)) =>
        if d == [] then FormatError(EmptySeparator)
        else Evaluate(Tokens(body, d))
  }

  /** Python's `map(str, xs)`. */
  function Decimals(xs: seq<int>): (r: seq<string>)
    ensures |r| == |xs|
    ensures forall k :: 0 <= k < |xs| ==> r[k] == IntToString(xs[k])
    decreases |xs|
  {
    if xs == [] then [] else [IntToString(xs[0])] + Decimals(xs[1..])
  }

  /**
   * The text of the ValueError raised for the negatives `vs`: the fixed
   * prefix, then `str` of each negative in order, separated by ", ".
   */
  function NegativeMessage(vs: seq<int>): (m: string)
    ensures NegativePrefix <= m
    ensures vs != [] ==> Split(m[|NegativePrefix|..], ", ") == Decimals(vs)
    ensures vs != [] ==> ParseAll(Split(m[|NegativePrefix|..], ", ")) == Success(vs)
  {
    var listing := Join(Decimals(vs), ", ");
    ListingParses(vs);
    assert (NegativePrefix + listing)[|NegativePrefix|..] == listing;
    NegativePrefix + listing
  }

  lemma ListingParses(vs: seq<int>)
    ensures vs != [] ==> Split(Join(Decimals(vs), ", "), ", ") == Decimals(vs)
    ensures vs != [] ==> ParseAll(Split(Join(Decimals(vs), ", "), ", ")) == Success(vs)
  {
    if vs != [] {
      var strs := Decimals(vs);
      forall k | 0 <= k < |strs| ensures ',' !in strs[k] {
        assert strs[k] == IntToString(vs[k]);
      }
      SplitJoin(strs, ", ");
      ParseAllDecimals(vs);
    }
  }

  lemma ParseAllCons(t: string, ts: seq<string>, n: int, ns: seq<int>)
    requires ParseInt(t) == Some(n) && ParseAll(ts) == Success(ns)
    ensures ParseAll([t] + ts) == Success([n] + ns)
  {
    assert ([t] + ts)[0] == t;
    assert ([t] + ts)[1..] == ts;
  }

  /** Parsing the decimal text of every number gives the numbers back. */
  lemma {:induction false} ParseAllDecimals(xs: seq<int>)
    ensures ParseAll(Decimals(xs)) == Success(xs)
    decreases |xs|
  {
    if xs != [] {
      ParseAllDecimals(xs[1..]);
      assert Decimals(xs) == [IntToString(xs[0])] + Decimals(xs[1..]);
      ParseAllCons(IntToString(xs[0]), Decimals(xs[1..]), xs[0], xs[1..]);
      assert [xs[0]] + xs[1..] == xs;
    }
  }
}

