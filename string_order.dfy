/**
  Go's `<` on strings: byte-wise lexicographic order, which is also what
  SQLite's BINARY collation uses for `date >= ?` and `ORDER BY date`. (Dafny's
  own `<` on sequences means "proper prefix", so the order is defined here.)
*/
module StringOrder {
  import opened Digits

  predicate Less(a: string, b: string) {
    if a == [] then b != []
    else if b == [] then false
    else if a[0] == b[0] then Less(a[1..], b[1..])
    else a[0] < b[0]
  }

  /** The order described directly: at the first position where the strings differ, `a`'s
      byte is the smaller, or `a` is a proper prefix of `b`. */
  ghost predicate FirstDifferenceBelow(a: string, b: string) {
    || (|a| < |b| && a == b[..|a|])
    || exists i | 0 <= i < |a| && i < |b| :: a[..i] == b[..i] && a[i] < b[i]
  }

  /** With equal first bytes, the first difference lies in the tails. */
  lemma FirstDifferenceOfTails(a: string, b: string)
    requires a != [] && b != [] && a[0] == b[0]
    ensures FirstDifferenceBelow(a, b) <==> FirstDifferenceBelow(a[1..], b[1..])
  {
    var a', b' := a[1..], b[1..];
    assert a == [a[0]] + a' && b == [b[0]] + b';
    if FirstDifferenceBelow(a', b') {
      if |a'| < |b'| && a' == b'[..|a'|] {
        assert b[..|a|] == [b[0]] + b'[..|a'|];
      } else {
        var j :| 0 <= j < |a'| && j < |b'| && a'[..j] == b'[..j] && a'[j] < b'[j];
        assert a[..j + 1] == [a[0]] + a'[..j] && b[..j + 1] == [b[0]] + b'[..j];
      }
    }
    if FirstDifferenceBelow(a, b) {
      if |a| < |b| && a == b[..|a|] {
        assert a' == b'[..|a'|];
      } else {
        var i :| 0 <= i < |a| && i < |b| && a[..i] == b[..i] && a[i] < b[i];
        assert a'[..i - 1] == a[..i][1..] && b'[..i - 1] == b[..i][1..];
      }
    }
  }

  /** With different first bytes, the first difference is there. */
  lemma FirstDifferenceAtHead(a: string, b: string)
    requires a != [] && b != [] && a[0] != b[0]
    ensures FirstDifferenceBelow(a, b) <==> a[0] < b[0]
  {
    if |a| < |b| {
      assert b[..|a|][0] == b[0];
    }
    forall i | 0 < i < |a| && i < |b|
      ensures a[..i] != b[..i]
    {
      assert a[..i][0] == a[0] && b[..i][0] == b[0];
    }
    if a[0] < b[0] {
      assert a[..0] == b[..0];
    }
  }

  /** `Less` is Go's string comparison: decided by the first differing byte, with a proper
      prefix below the longer string. */
  lemma {:induction false} LessIsFirstDifference(a: string, b: string)
    ensures Less(a, b) <==> FirstDifferenceBelow(a, b)
  {
    if a == [] {
      if b != [] {
        assert a == b[..0];
      }
    } else if b == [] {
    } else if a[0] == b[0] {
      LessIsFirstDifference(a[1..], b[1..]);
      FirstDifferenceOfTails(a, b);
    } else {
      FirstDifferenceAtHead(a, b);
    }
  }

  lemma {:induction false} LessIrreflexive(a: string)
    ensures !Less(a, a)
  {
    if a != [] {
      LessIrreflexive(a[1..]);
    }
  }

  lemma {:induction false} LessTransitive(a: string, b: string, c: string)
    requires Less(a, b) && Less(b, c)
    ensures Less(a, c)
  {
    if a != [] && a[0] == b[0] && b[0] == c[0] {
      LessTransitive(a[1..], b[1..], c[1..]);
    }
  }

  lemma {:induction false} LessTotal(a: string, b: string)
    ensures a == b || Less(a, b) || Less(b, a)
  {
    if a != [] && b != [] && a[0] == b[0] {
      LessTotal(a[1..], b[1..]);
      assert a == [a[0]] + a[1..] && b == [b[0]] + b[1..];
    }
  }

  lemma LessAsymmetric(a: string, b: string)
    requires Less(a, b)
    ensures !Less(b, a)
  {
    if Less(b, a) {
      LessTransitive(a, b, a);
      LessIrreflexive(a);
    }
  }

  /** On digit strings of one length, the string order is the numeric order. */
  lemma {:induction false} LessOnDigits(a: string, b: string)
    requires AllDigits(a) && AllDigits(b) && |a| == |b|
    ensures Less(a, b) <==> Value(a) < Value(b)
  {
    if a != [] {
      var p := Pow10(|a| - 1);
      assert a == [a[0]] + a[1..] && b == [b[0]] + b[1..];
      ValueConcat([a[0]], a[1..]);
      ValueConcat([b[0]], b[1..]);
      ValueSingle(a[0]);
      ValueSingle(b[0]);
      assert Value(a) == DigitValue(a[0]) * p + Value(a[1..]);
      assert Value(b) == DigitValue(b[0]) * p + Value(b[1..]);
      ValueBound(a[1..]);
      ValueBound(b[1..]);
      if a[0] == b[0] {
        LessOnDigits(a[1..], b[1..]);
      } else if a[0] < b[0] {
        MultipleGap(DigitValue(a[0]), DigitValue(b[0]), p);
      } else {
        MultipleGap(DigitValue(b[0]), DigitValue(a[0]), p);
      }
    }
  }
}
