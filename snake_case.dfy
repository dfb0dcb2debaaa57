/** `GeneralUtil.snake_to_pascal`: split on `_`, capitalise every piece, concatenate. */
module SnakeCase {
  import opened Text

  /** The capitalised pieces, concatenated in order (the comprehension and `''.join`). */
  function CapitalizeAll(pieces: seq<string>): (r: string)
    ensures |r| == Length(pieces)
    ensures (forall k :: 0 <= k < |pieces| ==> '_' !in pieces[k]) ==> '_' !in r
  {
    if pieces == [] then [] else Capitalize(pieces[0]) + CapitalizeAll(pieces[1..])
  }

  /** Total length of the pieces. */
  function Length(pieces: seq<string>): nat
  {
    if pieces == [] then 0 else |pieces[0]| + Length(pieces[1..])
  }

  function SnakeToPascal(snake: string): (pascal: string)
    ensures '_' !in pascal
  {
    CapitalizeAll(Split(snake, '_'))
  }

  lemma {:induction false} CapitalizeAllAppend(p: seq<string>, q: seq<string>)
    ensures CapitalizeAll(p + q) == CapitalizeAll(p) + CapitalizeAll(q)
    decreases |p|
  {
    if p == [] {
      assert p + q == q;
    } else {
      assert (p + q)[1..] == p[1..] + q;
      CapitalizeAllAppend(p[1..], q);
    }
  }

  /** Every underscore disappears and every other character survives:
      the result is as long as the input less its underscores. */
  lemma {:induction false} SnakeToPascalLength(snake: string)
    ensures |SnakeToPascal(snake)| == |snake| - Count('_', snake)
    decreases |snake|
  {
    if snake != [] {
      SnakeToPascalLength(snake[1..]);
      var rest := Split(snake[1..], '_');
      SplitCons(snake[0], snake[1..], '_');
      assert [snake[0]] + snake[1..] == snake;
      if snake[0] != '_' {
        assert Length(Split(snake, '_')) == 1 + Length(rest);
      }
    }
  }

  /** A piece without underscores is simply capitalised. */
  lemma PascalOfPiece(piece: string)
    requires '_' !in piece
    ensures SnakeToPascal(piece) == Capitalize(piece)
  {
    SplitFree(piece, '_');
    assert CapitalizeAll([piece]) == Capitalize(piece) + CapitalizeAll([]);
  }

  /** An underscore separates independent pieces: the conversion of `a_b` is the
      conversion of `a` followed by that of `b`. With `PascalOfPiece` and the empty
      case this determines the conversion of every string. */
  lemma PascalOfJoin(a: string, b: string)
    ensures SnakeToPascal(a + "_" + b) == SnakeToPascal(a) + SnakeToPascal(b)
  {
    SplitAround(a, b, '_');
    CapitalizeAllAppend(Split(a, '_'), Split(b, '_'));
  }

  lemma PascalOfEmpty()
    ensures SnakeToPascal([]) == []
  {
    assert Split([], '_') == [[]];
    assert CapitalizeAll([[]]) == Capitalize([]) + CapitalizeAll([]);
  }

  /** Empty pieces, from a leading, trailing or doubled underscore, contribute nothing. */
  lemma EmptyPiecesVanish(a: string, b: string)
    ensures SnakeToPascal("_" + b) == SnakeToPascal(b)
    ensures SnakeToPascal(a + "_") == SnakeToPascal(a)
    ensures SnakeToPascal(a + "__" + b) == SnakeToPascal(a + "_" + b)
  {
    LeadingUnderscore(b);
    TrailingUnderscore(a);
    DoubledUnderscore(a, b);
  }

  lemma DoubledUnderscore(a: string, b: string)
    ensures SnakeToPascal(a + "__" + b) == SnakeToPascal(a + "_" + b)
  {
    var ub := "_" + b;
    assert a + "__" + b == a + "_" + ub;
    calc {
      SnakeToPascal(a + "_" + ub);
    == { PascalOfJoin(a, ub); }
      SnakeToPascal(a) + SnakeToPascal(ub);
    == { LeadingUnderscore(b); }
      SnakeToPascal(a) + SnakeToPascal(b);
    == { PascalOfJoin(a, b); }
      SnakeToPascal(a + "_" + b);
    }
  }

  lemma LeadingUnderscore(b: string)
    ensures SnakeToPascal("_" + b) == SnakeToPascal(b)
  {
    PascalOfEmpty();
    PascalOfJoin([], b);
    assert [] + "_" + b == "_" + b;
  }

  lemma TrailingUnderscore(a: string)
    ensures SnakeToPascal(a + "_") == SnakeToPascal(a)
  {
    PascalOfEmpty();
    PascalOfJoin(a, []);
    assert a + "_" + [] == a + "_";
  }
}
