/** The string-sum calculator: `sum(input)` parses its argument into tokens
    separated by ',' or '\n', validates where the separators stand, converts
    each token to a number (dropping the ones that are not numbers) and adds
    the numbers up from 0. Every stage is a pure function of its input. */
module Calculator {
  import opened NumberConversion

  /** The argument of `sum`: a string, or any value of another type. */
  datatype Input = Str(s: string) | Other

  /** The one error kind `sum` raises. */
  datatype Error = InvalidInput

  datatype Result<T> = Ok(value: T) | Err(error: Error)

  /** The message carried by the error. */
  function Message(e: Error): (m: string)
    ensures m == "Not a valid input"
  {
    match e
    case InvalidInput => "Not a valid input"
  }

  // ---------------------------------------------------------------------
  // Parse: split on every ',' and '\n', keeping empty pieces

  predicate IsSeparator(c: char) {
    c == ',' || c == '\n'
  }

  predicate NoSeparator(t: string) {
    forall j :: 0 <= j < |t| ==> !IsSeparator(t[j])
  }

  /** The separators of `s`, in order. */
  function Separators(s: string): (seps: string)
    ensures |seps| <= |s|
    ensures forall i :: 0 <= i < |seps| ==> IsSeparator(seps[i])
  {
    if s == [] then []
    else (if IsSeparator(s[0]) then [s[0]] else []) + Separators(s[1..])
  }

  /** The pieces of `s` between separators; like `split(/,|\n/)`, an empty
      piece is kept wherever two separators meet or one stands at an end. */
  function Split(s: string): (tokens: seq<string>)
    ensures |tokens| == |Separators(s)| + 1
  {
    if s == [] then [[]] else Prepend(s[0], Split(s[1..]))
  }

  /** The tokens of `[c] + s` from the tokens of `s`: a separator starts a new
      (so far empty) token, any other character joins the first token. */
  function Prepend(c: char, tokens: seq<string>): (r: seq<string>)
    requires |tokens| >= 1
    ensures |r| == |tokens| + (if IsSeparator(c) then 1 else 0)
  {
    if IsSeparator(c) then [[]] + tokens else [[c] + tokens[0]] + tokens[1..]
  }

  /** `parse`: a string is split, anything else is rejected. */
  function Parse(input: Input): (r: Result<seq<string>>)
    ensures r.Err? <==> input.Other?
    ensures r.Err? ==> r.error == InvalidInput
    ensures input.Str? ==> |r.value| == |Separators(input.s)| + 1
  {
    match input
    case Str(s) => Ok(Split(s))
    case Other => Err(InvalidInput)
  }

  /** Puts tokens back together with the given separators between them. */
  function Join(tokens: seq<string>, seps: string): string
    requires |tokens| == |seps| + 1
    decreases |seps|
  {
    if seps == [] then tokens[0]
    else tokens[0] + [seps[0]] + Join(tokens[1..], seps[1..])
  }

  // ---------------------------------------------------------------------
  // Validate, normalize, reduce

  /** `validate`: the single empty token (the empty input) is accepted;
      otherwise no token may be empty. */
  predicate Validate(tokens: seq<string>) {
    if |tokens| == 1 && tokens[0] == [] then true
    else [] !in tokens
  }

  /** `normalize`: every token through `Number`, NaNs dropped. */
  function Normalize(tokens: seq<string>): (numbers: seq<real>)
    ensures |numbers| <= |tokens|
  {
    if tokens == [] then [] else Converted(tokens[0]) + Normalize(tokens[1..])
  }

  /** One token through `Number`: its value, or nothing for NaN. */
  function Converted(t: string): (r: seq<real>)
    ensures |r| <= 1
  {
    match ToNumber(t)
    case None => []
    case Some(v) => [v]
  }

  /** `reduce((a, b) => a + b, acc)`: a left fold with `+`. */
  function AddAll(acc: real, xs: seq<real>): real
    decreases |xs|
  {
    if xs == [] then acc else AddAll(acc + xs[0], xs[1..])
  }

  /** The reduce of `sum`, starting from 0. */
  function Total(xs: seq<real>): real {
    AddAll(0.0, xs)
  }

  /** `sum`: parse, validate, normalize, reduce. Whatever goes wrong, the
      error is the one kind, and a non-string input always fails. */
  function Sum(input: Input): (r: Result<real>)
    ensures r.Err? ==> r.error == InvalidInput
    ensures input.Other? ==> r.Err?
  {
    match Parse(input)
    case Err(e) => Err(e)
    case Ok(tokens) =>
      if !Validate(tokens) then Err(InvalidInput)
      else Ok(Total(Normalize(tokens)))
  }

  // ---------------------------------------------------------------------
  // Split and Join are inverse

  /** No token contains a separator. */
  lemma {:induction false} SplitTokensPlain(s: string)
    ensures forall i :: 0 <= i < |Split(s)| ==> NoSeparator(Split(s)[i])
    decreases |s|
  {
    if s != [] {
      SplitTokensPlain(s[1..]);
      var rest := Split(s[1..]);
      if !IsSeparator(s[0]) {
        var first := [s[0]] + rest[0];
        assert NoSeparator(first) by {
          forall j | 0 <= j < |first| ensures !IsSeparator(first[j]) {
            if j > 0 {
              assert first[j] == rest[0][j - 1];
            }
          }
        }
        assert Split(s) == [first] + rest[1..];
      }
    }
  }

  /** Splitting a string that starts with a separator-free piece `t`. */
  lemma {:induction false} SplitAfterPlainPrefix(t: string, u: string)
    requires NoSeparator(t)
    ensures Split(t + u) == [t + Split(u)[0]] + Split(u)[1..]
    decreases |t|
  {
    if t == [] {
      assert t + u == u;
      assert t + Split(u)[0] == Split(u)[0];
      assert Split(u) == [Split(u)[0]] + Split(u)[1..];
    } else {
      assert (t + u)[0] == t[0] && (t + u)[1..] == t[1..] + u;
      assert NoSeparator(t[1..]) by {
        assert forall j :: 0 <= j < |t[1..]| ==> t[1..][j] == t[j + 1];
      }
      assert !IsSeparator(t[0]);
      SplitAfterPlainPrefix(t[1..], u);
      assert [t[0]] + (t[1..] + Split(u)[0]) == t + Split(u)[0];
    }
  }

  lemma SplitOfPlain(t: string)
    requires NoSeparator(t)
    ensures Split(t) == [t]
  {
    SplitAfterPlainPrefix(t, []);
    assert t + [] == t;
  }

  lemma {:induction false} SeparatorsOfAppend(a: string, b: string)
    ensures Separators(a + b) == Separators(a) + Separators(b)
    decreases |a|
  {
    if a == [] {
      assert a + b == b;
    } else {
      assert (a + b)[0] == a[0] && (a + b)[1..] == a[1..] + b;
      SeparatorsOfAppend(a[1..], b);
    }
  }

  lemma {:induction false} SeparatorsOfPlain(t: string)
    requires NoSeparator(t)
    ensures Separators(t) == []
    decreases |t|
  {
    if t != [] {
      assert !IsSeparator(t[0]);
      assert NoSeparator(t[1..]) by {
        assert forall j :: 0 <= j < |t[1..]| ==> t[1..][j] == t[j + 1];
      }
      SeparatorsOfPlain(t[1..]);
    }
  }

  /** Joining the tokens of `s` with the separators of `s` gives back `s`:
      splitting loses nothing, empty tokens included. */
  lemma {:induction false} JoinSplit(s: string)
    ensures Join(Split(s), Separators(s)) == s
    decreases |s|
  {
    if s != [] {
      var rest := Split(s[1..]);
      JoinSplit(s[1..]);
      assert s == [s[0]] + s[1..];
      if IsSeparator(s[0]) {
        assert Split(s) == [[]] + rest;
        assert Separators(s) == [s[0]] + Separators(s[1..]);
        assert Split(s)[1..] == rest;
      } else {
        var seps := Separators(s[1..]);
        assert Separators(s) == seps;
        assert Split(s) == [[s[0]] + rest[0]] + rest[1..];
        if seps == [] {
          assert Join(rest, seps) == rest[0];
        } else {
          assert Join(rest, seps) == rest[0] + [seps[0]] + Join(rest[1..], seps[1..]);
          assert Split(s)[1..][1..] == rest[1..][1..];
        }
      }
    }
  }

  /** Conversely, separator-free tokens joined with separators split back
      into the same tokens, and the separators are the ones used. */
  lemma {:induction false} SplitJoin(tokens: seq<string>, seps: string)
    requires |tokens| == |seps| + 1
    requires forall i :: 0 <= i < |seps| ==> IsSeparator(seps[i])
    requires forall i :: 0 <= i < |tokens| ==> NoSeparator(tokens[i])
    ensures Split(Join(tokens, seps)) == tokens
    ensures Separators(Join(tokens, seps)) == seps
    decreases |seps|
  {
    if seps == [] {
      SplitOfPlain(tokens[0]);
      SeparatorsOfPlain(tokens[0]);
    } else {
      var rest := Join(tokens[1..], seps[1..]);
      SplitJoin(tokens[1..], seps[1..]);
      var u := [seps[0]] + rest;
      assert Join(tokens, seps) == tokens[0] + u;
      SplitAfterPlainPrefix(tokens[0], u);
      assert u[0] == seps[0] && u[1..] == rest;
      assert Split(u) == [[]] + tokens[1..];
      assert tokens[0] + [] == tokens[0];
      assert tokens == [tokens[0]] + tokens[1..];
      SeparatorsOfAppend(tokens[0], u);
      SeparatorsOfPlain(tokens[0]);
      assert Separators(u) == [seps[0]] + seps[1..];
    }
  }

  /** `split` yields the lone empty token exactly for the empty string. */
  lemma SplitLoneEmpty(s: string)
    ensures Split(s) == [[]] <==> s == []
  {
    if Split(s) == [[]] {
      JoinSplit(s);
    }
  }

  // ---------------------------------------------------------------------
  // Empty tokens and separator placement

  /** The separator at `i` ends the string or is followed by another
      separator, so an empty token follows it. */
  predicate EmptyTokenAfter(s: string, i: int)
    requires 0 <= i < |s|
  {
    IsSeparator(s[i]) && (i == |s| - 1 || IsSeparator(s[i + 1]))
  }

  /** A non-empty input whose separators all stand between two non-empty
      pieces: it neither starts nor ends with a separator, and no two
      separators are adjacent. */
  predicate WellSeparated(s: string) {
    && |s| > 0
    && !IsSeparator(s[0])
    && !IsSeparator(s[|s| - 1])
    && forall i :: 0 <= i < |s| - 1 ==> !(IsSeparator(s[i]) && IsSeparator(s[i + 1]))
  }

  lemma FirstTokenEmpty(s: string)
    ensures Split(s)[0] == [] <==> s == [] || IsSeparator(s[0])
  {
  }

  /** A token after the first is empty exactly where a separator ends the
      string or meets another separator. */
  lemma {:induction false} LaterTokenEmpty(s: string)
    ensures [] in Split(s)[1..] <==> exists i :: 0 <= i < |s| && EmptyTokenAfter(s, i)
    decreases |s|
  {
    if s != [] {
      var t := s[1..];
      var rest := Split(t);
      LaterTokenEmpty(t);
      FirstTokenEmpty(t);
      forall i | 0 <= i < |t|
        ensures EmptyTokenAfter(s, i + 1) == EmptyTokenAfter(t, i)
      {
      }
      assert rest == [rest[0]] + rest[1..];
      if IsSeparator(s[0]) {
        assert Split(s)[1..] == rest;
        assert EmptyTokenAfter(s, 0) <==> t == [] || IsSeparator(t[0]);
        if [] in rest[1..] {
          var j :| 0 <= j < |t| && EmptyTokenAfter(t, j);
          assert EmptyTokenAfter(s, j + 1);
        }
        if exists i :: 0 <= i < |s| && EmptyTokenAfter(s, i) {
          var i :| 0 <= i < |s| && EmptyTokenAfter(s, i);
          if i > 0 {
            assert EmptyTokenAfter(t, i - 1);
          }
        }
      } else {
        assert Split(s)[1..] == rest[1..];
        assert !EmptyTokenAfter(s, 0);
        if [] in rest[1..] {
          var j :| 0 <= j < |t| && EmptyTokenAfter(t, j);
          assert EmptyTokenAfter(s, j + 1);
        }
        if exists i :: 0 <= i < |s| && EmptyTokenAfter(s, i) {
          var i :| 0 <= i < |s| && EmptyTokenAfter(s, i);
          assert EmptyTokenAfter(t, i - 1);
        }
      }
    }
  }

  /** Some token is empty exactly when the input is not well separated: it
      is empty, starts with a separator, ends with one, or has two adjacent
      ones. */
  lemma EmptyTokenIff(s: string)
    ensures [] in Split(s) <==> !WellSeparated(s)
  {
    var tokens := Split(s);
    assert tokens == [tokens[0]] + tokens[1..];
    FirstTokenEmpty(s);
    LaterTokenEmpty(s);
    if s != [] {
      if exists i :: 0 <= i < |s| && EmptyTokenAfter(s, i) {
        var i :| 0 <= i < |s| && EmptyTokenAfter(s, i);
        if i < |s| - 1 {
          assert IsSeparator(s[i]) && IsSeparator(s[i + 1]);
        }
      }
      if !WellSeparated(s) && !IsSeparator(s[0]) && !IsSeparator(s[|s| - 1]) {
        var i :| 0 <= i < |s| - 1 && IsSeparator(s[i]) && IsSeparator(s[i + 1]);
        assert EmptyTokenAfter(s, i);
      }
      if IsSeparator(s[|s| - 1]) {
        assert EmptyTokenAfter(s, |s| - 1);
      }
    }
  }

  /** `validate` accepts the tokens of a string exactly when the string is
      empty or well separated: the lone empty token is allowed, any other
      empty token is not. */
  lemma ValidateSplit(s: string)
    ensures Validate(Split(s)) <==> s == [] || WellSeparated(s)
  {
    SplitLoneEmpty(s);
    EmptyTokenIff(s);
  }

  // ---------------------------------------------------------------------
  // Normalize keeps the numbers, in order

  lemma {:induction false} NormalizeAppend(a: seq<string>, b: seq<string>)
    ensures Normalize(a + b) == Normalize(a) + Normalize(b)
    decreases |a|
  {
    if a == [] {
      assert a + b == b;
    } else {
      assert (a + b)[0] == a[0] && (a + b)[1..] == a[1..] + b;
      NormalizeAppend(a[1..], b);
    }
  }

  /** `picked` lists, in increasing order, the positions of exactly the
      tokens that convert to a number, and `numbers` their values. */
  predicate Selects(tokens: seq<string>, picked: seq<nat>, numbers: seq<real>) {
    && |picked| == |numbers|
    && (forall k :: 0 <= k < |picked| ==>
          picked[k] < |tokens| && ToNumber(tokens[picked[k]]) == Some(numbers[k]))
    && (forall k, l :: 0 <= k < l < |picked| ==> picked[k] < picked[l])
    && (forall i :: 0 <= i < |tokens| && ToNumber(tokens[i]).Some? ==> i in picked)
  }

  function Shifted(picked: seq<nat>): (r: seq<nat>)
    ensures |r| == |picked| && forall k :: 0 <= k < |r| ==> r[k] == picked[k] + 1
  {
    seq(|picked|, k requires 0 <= k < |picked| => picked[k] + 1)
  }

  lemma SelectsCons(t: string, rest: seq<string>, picked: seq<nat>, numbers: seq<real>)
    requires Selects(rest, picked, numbers)
    ensures Selects([t] + rest, (if ToNumber(t).Some? then [0] else []) + Shifted(picked),
                    Converted(t) + numbers)
  {
    var head: seq<nat> := if ToNumber(t).Some? then [0] else [];
    assert |Converted(t)| == |head|;
    assert forall k :: 0 <= k < |head| ==> ToNumber(t) == Some(Converted(t)[k]);
    SelectsConsValues(t, rest, head, picked, numbers);
    SelectsConsOrdered(head, picked);
    SelectsConsComplete(t, rest, head, picked, numbers);
  }

  lemma SelectsConsValues(t: string, rest: seq<string>, head: seq<nat>, picked: seq<nat>, numbers: seq<real>)
    requires Selects(rest, picked, numbers)
    requires head == if ToNumber(t).Some? then [0] else []
    requires |Converted(t)| == |head|
    requires forall k :: 0 <= k < |head| ==> ToNumber(t) == Some(Converted(t)[k])
    ensures forall k :: 0 <= k < |head + Shifted(picked)| ==>
      (head + Shifted(picked))[k] < |[t] + rest| &&
      ToNumber(([t] + rest)[(head + Shifted(picked))[k]]) == Some((Converted(t) + numbers)[k])
  {
    var tokens, p, n, h := [t] + rest, head + Shifted(picked), Converted(t) + numbers, |head|;
    forall k | 0 <= k < |p|
      ensures p[k] < |tokens| && ToNumber(tokens[p[k]]) == Some(n[k])
    {
      if k >= h {
        assert p[k] == picked[k - h] + 1 && n[k] == numbers[k - h];
        assert tokens[p[k]] == rest[picked[k - h]];
      } else {
        assert p[k] == 0 && n[k] == Converted(t)[k];
      }
    }
  }

  lemma SelectsConsOrdered(head: seq<nat>, picked: seq<nat>)
    requires head == [] || head == [0]
    requires forall k, l :: 0 <= k < l < |picked| ==> picked[k] < picked[l]
    ensures forall k, l :: 0 <= k < l < |head + Shifted(picked)| ==>
      (head + Shifted(picked))[k] < (head + Shifted(picked))[l]
  {
    var p, h := head + Shifted(picked), |head|;
    forall k, l | 0 <= k < l < |p|
      ensures p[k] < p[l]
    {
      if k >= h {
        assert p[k] == picked[k - h] + 1 && p[l] == picked[l - h] + 1;
      } else {
        assert p[l] == picked[l - h] + 1;
      }
    }
  }

  lemma SelectsConsComplete(t: string, rest: seq<string>, head: seq<nat>, picked: seq<nat>, numbers: seq<real>)
    requires Selects(rest, picked, numbers)
    requires head == if ToNumber(t).Some? then [0] else []
    ensures forall i :: 0 <= i < |[t] + rest| && ToNumber(([t] + rest)[i]).Some? ==>
      i in head + Shifted(picked)
  {
    var tokens, p, h := [t] + rest, head + Shifted(picked), |head|;
    forall i | 0 <= i < |tokens| && ToNumber(tokens[i]).Some?
      ensures i in p
    {
      if i > 0 {
        assert tokens[i] == rest[i - 1];
        var k :| 0 <= k < |picked| && picked[k] == i - 1;
        assert p[h + k] == i;
      } else {
        assert p[0] == 0;
      }
    }
  }

  /** `normalize` selects, in their order, exactly the tokens that convert
      to a number: `picked` are their positions. */
  lemma {:induction false} NormalizeSelects(tokens: seq<string>) returns (picked: seq<nat>)
    ensures Selects(tokens, picked, Normalize(tokens))
    decreases |tokens|
  {
    if tokens == [] {
      picked := [];
    } else {
      var tail := NormalizeSelects(tokens[1..]);
      SelectsCons(tokens[0], tokens[1..], tail, Normalize(tokens[1..]));
      assert tokens == [tokens[0]] + tokens[1..];
      picked := (if ToNumber(tokens[0]).Some? then [0] else []) + Shifted(tail);
    }
  }

  /** A token that is not a number is dropped and never causes an error. */
  lemma NormalizeDropsNonNumber(before: seq<string>, t: string, after: seq<string>)
    requires ToNumber(t) == None
    ensures Normalize(before + [t] + after) == Normalize(before) + Normalize(after)
  {
    NormalizeOfOne(t);
    assert Converted(t) == [];
    NormalizeAppend(before + [t], after);
    NormalizeAppend(before, [t]);
  }

  lemma NormalizeOfOne(t: string)
    ensures Normalize([t]) == Converted(t)
  {
    assert [t][0] == t && [t][1..] == [];
  }

  // ---------------------------------------------------------------------
  // The reduce is additive

  lemma {:induction false} AddAllShift(acc: real, xs: seq<real>)
    ensures AddAll(acc, xs) == acc + Total(xs)
    decreases |xs|
  {
    if xs != [] {
      AddAllShift(acc + xs[0], xs[1..]);
      AddAllShift(xs[0], xs[1..]);
    }
  }

  /** The total over `xs + ys` is the total over `xs` plus the total over `ys`. */
  lemma {:induction false} TotalAppend(xs: seq<real>, ys: seq<real>)
    ensures Total(xs + ys) == Total(xs) + Total(ys)
    decreases |xs|
  {
    if xs == [] {
      assert xs + ys == ys;
    } else {
      assert (xs + ys)[0] == xs[0] && (xs + ys)[1..] == xs[1..] + ys;
      TotalAppend(xs[1..], ys);
      AddAllShift(xs[0], xs[1..] + ys);
      AddAllShift(xs[0], xs[1..]);
    }
  }

  /** The order of the numbers does not change their total. */
  lemma {:induction false} TotalPermutation(xs: seq<real>, ys: seq<real>)
    requires multiset(xs) == multiset(ys)
    ensures Total(xs) == Total(ys)
    decreases |xs|
  {
    if xs == [] {
      assert |ys| == |multiset(ys)| == 0;
    } else {
      var x := xs[0];
      assert x in multiset(ys);
      var i :| 0 <= i < |ys| && ys[i] == x;
      var rest := ys[..i] + ys[i + 1..];
      assert ys == ys[..i] + [x] + ys[i + 1..];
      assert xs == [x] + xs[1..];
      assert multiset(ys) == multiset(ys[..i]) + multiset{x} + multiset(ys[i + 1..]);
      assert multiset(xs) == multiset{x} + multiset(xs[1..]);
      assert multiset(rest) == multiset(ys[..i]) + multiset(ys[i + 1..]);
      assert multiset(xs[1..]) == multiset(xs) - multiset{x};
      assert multiset(rest) == multiset(ys) - multiset{x};
      TotalPermutation(xs[1..], rest);
      TotalAppend(ys[..i] + [x], ys[i + 1..]);
      TotalAppend(ys[..i], [x]);
      TotalAppend(ys[..i], ys[i + 1..]);
      TotalAppend([x], xs[1..]);
    }
  }

  // ---------------------------------------------------------------------
  // sum

  /** Anything but a string is rejected with the one error kind. */
  lemma SumOfNonString()
    ensures Sum(Other) == Err(InvalidInput)
  {
  }

  /** `sum` of a string fails exactly when the string is non-empty and not
      well separated, and otherwise returns the total of the numbers among
      its tokens; no other outcome exists. */
  lemma SumOutcome(s: string)
    ensures Sum(Str(s)) == if s == [] || WellSeparated(s) then Ok(Total(Normalize(Split(s))))
                           else Err(InvalidInput)
  {
    ValidateSplit(s);
  }

  lemma SumOfEmpty()
    ensures Sum(Str([])) == Ok(0.0)
  {
    assert Split([]) == [[]];
    assert Normalize([[]]) == [0.0];
  }

  /** A string holding one number is accepted, and its sum is that number. */
  lemma SumOfLiteral(lit: Literal)
    requires WellFormedLiteral(lit)
    ensures Sum(Str(Render(lit))) == Ok(LiteralValue(lit))
  {
    var t := Render(lit);
    SignOfRender(lit);
    RenderChars(lit);
    assert NoSeparator(t);
    SplitOfPlain(t);
    ToNumberOfRender(lit);
    NormalizeOfOne(t);
    var v := LiteralValue(lit);
    assert AddAll(0.0, [v]) == AddAll(0.0 + v, []) by {
      assert [v][0] == v && [v][1..] == [];
    }
  }

  /** A string holding one token that is not a number is accepted: the token
      is dropped and the sum is 0. */
  lemma SumOfNonNumber(t: string)
    requires t != [] && NoSeparator(t) && ToNumber(t) == None
    ensures Sum(Str(t)) == Ok(0.0)
  {
    SplitOfPlain(t);
    NormalizeOfOne(t);
    assert Converted(t) == [];
  }

  /** Joining two accepted non-empty inputs with a separator adds their sums. */
  lemma SumOfJoined(a: string, c: char, b: string)
    requires a != [] && b != [] && IsSeparator(c)
    requires Sum(Str(a)).Ok? && Sum(Str(b)).Ok?
    ensures Sum(Str(a + [c] + b)) == Ok(Sum(Str(a)).value + Sum(Str(b)).value)
  {
    SumOfValidated(a);
    SumOfValidated(b);
    TotalOfJoined(a, c, b);
    SumOfValidated(a + [c] + b);
  }

  lemma TotalOfJoined(a: string, c: char, b: string)
    requires a != [] && b != [] && IsSeparator(c)
    requires Validate(Split(a)) && Validate(Split(b))
    ensures Validate(Split(a + [c] + b))
    ensures Total(Normalize(Split(a + [c] + b)))
         == Total(Normalize(Split(a))) + Total(Normalize(Split(b)))
  {
    var ta, tb := Split(a), Split(b);
    SplitLoneEmpty(a);
    SplitLoneEmpty(b);
    SplitAroundSeparator(a, c, b);
    assert Validate(ta + tb);
    TotalOfNormalizeAppend(ta, tb);
  }

  /** For a string, `sum` is the total of the numbers once the tokens pass validation. */
  lemma SumOfValidated(s: string)
    ensures Sum(Str(s)).Ok? <==> Validate(Split(s))
    ensures Validate(Split(s)) ==> Sum(Str(s)) == Ok(Total(Normalize(Split(s))))
  {
  }

  lemma TotalOfNormalizeAppend(ta: seq<string>, tb: seq<string>)
    ensures Total(Normalize(ta + tb)) == Total(Normalize(ta)) + Total(Normalize(tb))
  {
    NormalizeAppend(ta, tb);
    TotalAppend(Normalize(ta), Normalize(tb));
  }

  lemma PrependAppend(c: char, ra: seq<string>, rb: seq<string>)
    requires |ra| >= 1
    ensures Prepend(c, ra + rb) == Prepend(c, ra) + rb
  {
    if !IsSeparator(c) {
      assert (ra + rb)[0] == ra[0];
      assert (ra + rb)[1..] == ra[1..] + rb;
    }
  }

  lemma {:induction false} SplitAroundSeparator(a: string, c: char, b: string)
    requires IsSeparator(c)
    ensures Split(a + [c] + b) == Split(a) + Split(b)
    decreases |a|
  {
    var w := a + [c] + b;
    if a == [] {
      assert w[0] == c && w[1..] == b;
    } else {
      assert w[0] == a[0] && w[1..] == a[1..] + [c] + b;
      SplitAroundSeparator(a[1..], c, b);
      PrependAppend(a[0], Split(a[1..]), Split(b));
    }
  }

  /** Strings with the same characters up to the choice of separator, ',' or
      '\n', split into the same tokens and so have the same sum. */
  predicate SameUpToSeparators(s: string, s': string) {
    && |s| == |s'|
    && forall i :: 0 <= i < |s| ==> s[i] == s'[i] || (IsSeparator(s[i]) && IsSeparator(s'[i]))
  }

  lemma {:induction false} SplitUpToSeparators(s: string, s': string)
    requires SameUpToSeparators(s, s')
    ensures Split(s) == Split(s')
    decreases |s|
  {
    if s != [] {
      assert SameUpToSeparators(s[1..], s'[1..]) by {
        forall i | 0 <= i < |s[1..]|
          ensures s[1..][i] == s'[1..][i] || (IsSeparator(s[1..][i]) && IsSeparator(s'[1..][i]))
        {
          assert s[1..][i] == s[i + 1] && s'[1..][i] == s'[i + 1];
        }
      }
      SplitUpToSeparators(s[1..], s'[1..]);
      assert s[0] == s'[0] || (IsSeparator(s[0]) && IsSeparator(s'[0]));
    }
  }

  lemma SumUpToSeparators(s: string, s': string)
    requires SameUpToSeparators(s, s')
    ensures Sum(Str(s)) == Sum(Str(s'))
  {
    SplitUpToSeparators(s, s');
  }
}
