/** The clean-up applied to the price field on every input event: keep only
    digits and dots, fold the text down to one dot, and cut the decimals. */
module PriceInput {
  import opened Sequences
  import opened Decimal

  predicate IsPriceChar(c: char) {
    IsDigit(c) || c == '.'
  }

  predicate IsNotDot(c: char) {
    c != '.'
  }

  /** Every character of `s` is a digit or a dot. */
  predicate PriceChars(s: string) {
    forall i :: 0 <= i < |s| ==> IsPriceChar(s[i])
  }

  /** No two positions of `s` both hold a dot. */
  predicate AtMostOneDot(s: string) {
    forall i, j :: 0 <= i < |s| && 0 <= j < |s| && s[i] == '.' && s[j] == '.' ==> i == j
  }

  /** The first step: delete every character that is not a digit or a dot. */
  function KeepPriceChars(s: string): (r: string)
    ensures |r| <= |s| && PriceChars(r)
  {
    Filter(s, IsPriceChar)
  }

  /** `s` with its dots deleted. */
  function RemoveDots(s: string): string {
    Filter(s, IsNotDot)
  }

  /** The pieces of `s` between dots, as JavaScript's `s.split('.')` gives
      them: one more piece than there are dots, empty pieces included. */
  function Split(s: string): (parts: seq<string>)
    ensures |parts| >= 1
    ensures forall k :: 0 <= k < |parts| ==> '.' !in parts[k]
  {
    if |s| == 0 then [""]
    else
      var rest := Split(s[1..]);
      if s[0] == '.' then [""] + rest
      else [[s[0]] + rest[0]] + rest[1..]
  }

  /** The pieces glued back together with a dot between neighbours. */
  function JoinDots(parts: seq<string>): string
    requires |parts| >= 1
  {
    if |parts| == 1 then parts[0] else parts[0] + "." + JoinDots(parts[1..])
  }

  /** The pieces glued back together with nothing between them. */
  function Concat(parts: seq<string>): (r: string)
    ensures forall c :: c in r <==> exists k :: 0 <= k < |parts| && c in parts[k]
  {
    if |parts| == 0 then ""
    else
      var tail := Concat(parts[1..]);
      assert forall k :: 0 < k < |parts| ==> parts[k] == parts[1..][k - 1];
      parts[0] + tail
  }

  /** The sanitiser, as written: `parts` is the split of the filtered text;
      with more than two pieces the text becomes the first piece, a dot and
      the remaining pieces joined; then, if the SECOND piece is longer than
      two characters, the text becomes the first piece, a dot and the first
      two characters of that second piece. */
  function SanitizePrice(s: string): string {
    var value := KeepPriceChars(s);
    var parts := Split(value);
    var joined := if |parts| > 2 then parts[0] + "." + Concat(parts[1..]) else value;
    if |parts| > 1 && |parts[1]| > 2 then parts[0] + "." + parts[1][..2] else joined
  }

  /** Whatever the input, the sanitised text holds only digits and dots, and
      at most one dot. */
  lemma SanitizePriceShape(s: string)
    ensures PriceChars(SanitizePrice(s)) && AtMostOneDot(SanitizePrice(s))
  {
    var value := KeepPriceChars(s);
    var parts := Split(value);
    var r := SanitizePrice(s);
    PartsAreDigits(value);
    ConcatDigits(parts[1..]);
    SplitJoin(value);
    if |parts| == 1 {
      DigitsShape(r);
    } else if |parts| == 2 && |parts[1]| <= 2 {
      assert r == parts[0] + "." + parts[1];
      DotShape(parts[0], parts[1]);
    } else {
      DotShape(parts[0], r[|parts[0]| + 1..]);
      assert r == parts[0] + "." + r[|parts[0]| + 1..];
    }
  }

  /** A variant that cuts the decimals after joining them, so at most two
      decimals ever survive. */
  function SanitizePriceCapped(s: string): (r: string)
    ensures PriceChars(r) && AtMostOneDot(r)
    ensures forall i :: 0 <= i < |r| && r[i] == '.' ==> |r| - (i + 1) <= 2
  {
    var value := KeepPriceChars(s);
    var parts := Split(value);
    PartsAreDigits(value);
    if |parts| == 1 then
      SplitJoin(value);
      DigitsShape(value);
      value
    else
      var decimals := Concat(parts[1..]);
      ConcatDigits(parts[1..]);
      var kept := if |decimals| > 2 then decimals[..2] else decimals;
      DotShape(parts[0], kept);
      parts[0] + "." + kept
  }

  // ----- Split and its inverse -----

  /** Gluing the pieces of `s` back with dots gives `s`. */
  lemma {:induction false} SplitJoin(s: string)
    ensures JoinDots(Split(s)) == s
  {
    if |s| > 0 {
      var rest := Split(s[1..]);
      SplitJoin(s[1..]);
      if s[0] == '.' {
        assert Split(s)[1..] == rest;
      } else {
        if |rest| == 1 {
        } else {
          assert Split(s)[1..] == rest[1..];
          assert JoinDots(rest) == rest[0] + "." + JoinDots(rest[1..]);
        }
      }
    }
  }

  /** A dot-free prefix is absorbed into the first piece. */
  lemma {:induction false} SplitDotFreePrefix(a: string, t: string)
    requires '.' !in a
    ensures Split(a + t) == [a + Split(t)[0]] + Split(t)[1..]
  {
    if |a| > 0 {
      assert (a + t)[0] == a[0] && (a + t)[1..] == a[1..] + t;
      assert a[0] in a;
      assert '.' !in a[1..] by {
        forall c | c in a[1..] ensures c in a { }
      }
      SplitDotFreePrefix(a[1..], t);
      var rest := Split(a[1..] + t);
      assert Split(a + t) == [[a[0]] + rest[0]] + rest[1..];
      assert rest[0] == a[1..] + Split(t)[0] && rest[1..] == Split(t)[1..];
      assert [a[0]] + (a[1..] + Split(t)[0]) == a + Split(t)[0];
    } else {
      assert a + t == t && a + Split(t)[0] == Split(t)[0];
      assert Split(t) == [Split(t)[0]] + Split(t)[1..];
    }
  }

  /** Splitting dot-free pieces glued with dots gives the pieces back. */
  lemma {:induction false} JoinSplit(parts: seq<string>)
    requires |parts| >= 1
    requires forall k :: 0 <= k < |parts| ==> '.' !in parts[k]
    ensures Split(JoinDots(parts)) == parts
  {
    if |parts| == 1 {
      SplitDotFreePrefix(parts[0], "");
      assert parts[0] + "" == parts[0];
    } else {
      var tail := JoinDots(parts[1..]);
      JoinSplit(parts[1..]);
      assert parts[0] + "." + tail == parts[0] + ("." + tail);
      SplitDotFreePrefix(parts[0], "." + tail);
      assert ("." + tail)[0] == '.' && ("." + tail)[1..] == tail;
      assert Split("." + tail) == [""] + parts[1..];
      assert Split(parts[0] + ("." + tail)) == [parts[0] + ""] + parts[1..];
      assert parts[0] + "" == parts[0];
      assert parts == [parts[0]] + parts[1..];
    }
  }

  /** The first piece is the text before the first dot. */
  lemma {:induction false} SplitHead(s: string)
    ensures |Split(s)[0]| <= |s| && s[..|Split(s)[0]|] == Split(s)[0]
    ensures |Split(s)| == 1 <==> '.' !in s
    ensures |Split(s)| == 1 ==> Split(s)[0] == s
    ensures |Split(s)| > 1 ==> s[|Split(s)[0]|] == '.' && Split(s)[1..] == Split(s[|Split(s)[0]| + 1..])
  {
    SplitJoin(s);
    if |s| > 0 {
      SplitHead(s[1..]);
      var rest := Split(s[1..]);
      if s[0] != '.' {
        assert '.' in s <==> '.' in s[1..] by {
          assert s == [s[0]] + s[1..];
        }
        var n := |rest[0]|;
        if |rest| > 1 {
          assert s[1..][n + 1..] == s[n + 2..];
        }
      } else {
        assert s[0] in s;
      }
    }
  }

  /** Joining the pieces of `s` with nothing between them deletes its dots. */
  lemma {:induction false} ConcatSplit(s: string)
    ensures Concat(Split(s)) == RemoveDots(s)
  {
    if |s| > 0 {
      ConcatSplit(s[1..]);
      var rest := Split(s[1..]);
      if s[0] != '.' {
        var parts := Split(s);
        assert parts[0] == [s[0]] + rest[0] && parts[1..] == rest[1..];
        assert Concat(rest) == rest[0] + Concat(rest[1..]);
        assert Concat(parts) == parts[0] + Concat(parts[1..]);
      }
    }
  }

  // ----- Character classes of the pieces -----

  /** Every piece of a digits-and-dots text is all digits. */
  lemma {:induction false} PartsAreDigits(s: string)
    requires PriceChars(s)
    ensures forall k :: 0 <= k < |Split(s)| ==> AllDigits(Split(s)[k])
  {
    if |s| > 0 {
      PartsAreDigits(s[1..]);
      var rest := Split(s[1..]);
      if s[0] != '.' {
        assert AllDigits([s[0]] + rest[0]);
        var parts := Split(s);
        forall k | 0 <= k < |parts| ensures AllDigits(parts[k]) {
          if k > 0 {
            assert parts[k] == rest[k];
          }
        }
      }
    }
  }

  lemma {:induction false} ConcatDigits(parts: seq<string>)
    requires forall k :: 0 <= k < |parts| ==> AllDigits(parts[k])
    ensures AllDigits(Concat(parts))
  {
    if |parts| > 0 {
      ConcatDigits(parts[1..]);
    }
  }

  /** A digits-only text has the shape the sanitiser promises. */
  lemma DigitsShape(a: string)
    requires AllDigits(a)
    ensures PriceChars(a) && AtMostOneDot(a)
  {
  }

  /** Digits, one dot, digits: the one dot sits at `|a|`. */
  lemma DotShape(a: string, b: string)
    requires AllDigits(a) && AllDigits(b)
    ensures PriceChars(a + "." + b) && AtMostOneDot(a + "." + b)
    ensures (a + "." + b)[|a|] == '.'
  {
  }

  /** The first piece ends at the first dot, and the remaining pieces are
      the split of what follows that dot. */
  lemma FirstDot(s: string, k: nat)
    requires k <= |s| && '.' !in s[..k] && (k == |s| || s[k] == '.')
    ensures Split(s)[0] == s[..k]
    ensures k < |s| ==> |Split(s)| > 1 && Split(s)[1..] == Split(s[k + 1..])
  {
    SplitHead(s);
    var p0 := Split(s)[0];
    var n := |p0|;
    forall i | 0 <= i < n ensures s[i] != '.' {
      assert s[i] == p0[i];
    }
    forall i | 0 <= i < k ensures s[i] != '.' {
      assert s[i] == s[..k][i];
    }
    assert n == k;
  }

  /** A character survives the first step exactly when it occurs in the
      input and is a digit or a dot. */
  lemma KeepPriceCharsMembers(s: string, c: char)
    ensures c in KeepPriceChars(s) <==> c in s && IsPriceChar(c)
  {
    FilterMembership(s, IsPriceChar, c);
  }

  /** A text that already consists of digits and dots passes the first step
      unchanged. */
  lemma KeepPriceCharsOfPriceChars(s: string)
    requires PriceChars(s)
    ensures KeepPriceChars(s) == s
  {
    FilterUnchanged(s, IsPriceChar);
  }

  lemma DigitsHaveNoDot(a: string)
    requires AllDigits(a)
    ensures '.' !in a
  {
  }

  /** A text of digits is left alone by both sanitisers. */
  lemma SanitizeDigits(a: string)
    requires AllDigits(a)
    ensures SanitizePrice(a) == a && SanitizePriceCapped(a) == a
  {
    KeepPriceCharsOfPriceChars(a);
    DigitsHaveNoDot(a);
    JoinSplit([a]);
  }

  /** Digits, a dot and at most two digits are left alone by both
      sanitisers. */
  lemma SanitizeDigitsDotDigits(a: string, q: string)
    requires AllDigits(a) && AllDigits(q) && |q| <= 2
    ensures SanitizePrice(a + "." + q) == a + "." + q
    ensures SanitizePriceCapped(a + "." + q) == a + "." + q
  {
    DotShape(a, q);
    KeepPriceCharsOfPriceChars(a + "." + q);
    DigitsHaveNoDot(a);
    DigitsHaveNoDot(q);
    assert JoinDots([a, q]) == a + "." + JoinDots([q]);
    JoinSplit([a, q]);
    assert Concat([q]) == q + Concat([]);
  }

  /** A filtered text with at most one dot splits into at most two pieces. */
  lemma OneDotTwoPieces(v: string)
    requires AtMostOneDot(v)
    ensures |Split(v)| <= 2
  {
    SplitHead(v);
    var parts := Split(v);
    if |parts| > 1 {
      var n := |parts[0]|;
      var rest := v[n + 1..];
      forall m | 0 <= m < |rest| ensures rest[m] != '.' {
        assert rest[m] == v[n + 1 + m];
      }
      SplitHead(rest);
    }
  }

  // ----- What the sanitiser promises -----

  /** Whatever the input, the digits before the first dot of the filtered
      text open the output. */
  lemma SanitizeKeepsLeadingDigits(s: string, k: nat)
    requires k <= |KeepPriceChars(s)|
    requires '.' !in KeepPriceChars(s)[..k]
    requires k == |KeepPriceChars(s)| || KeepPriceChars(s)[k] == '.'
    ensures k <= |SanitizePrice(s)| && SanitizePrice(s)[..k] == KeepPriceChars(s)[..k]
  {
    var v := KeepPriceChars(s);
    FirstDot(v, k);
  }

  /** When the filtered text has at most one dot, the output is a prefix of
      it that keeps at most two characters after its dot, it is the whole
      filtered text when that already had at most two, and sanitising the
      output again changes nothing. */
  lemma SanitizeSingleDot(s: string)
    requires AtMostOneDot(KeepPriceChars(s))
    ensures |SanitizePrice(s)| <= |KeepPriceChars(s)|
    ensures SanitizePrice(s) == KeepPriceChars(s)[..|SanitizePrice(s)|]
    ensures forall i :: 0 <= i < |SanitizePrice(s)| && SanitizePrice(s)[i] == '.' ==> |SanitizePrice(s)| - (i + 1) <= 2
    ensures (forall i :: 0 <= i < |KeepPriceChars(s)| && KeepPriceChars(s)[i] == '.' ==> |KeepPriceChars(s)| - (i + 1) <= 2)
            ==> SanitizePrice(s) == KeepPriceChars(s)
    ensures SanitizePrice(SanitizePrice(s)) == SanitizePrice(s)
  {
    var v := KeepPriceChars(s);
    var r := SanitizePrice(s);
    var parts := Split(v);
    OneDotTwoPieces(v);
    SplitJoin(v);
    PartsAreDigits(v);
    if |parts| == 1 {
      SanitizeDigits(v);
      DigitsHaveNoDot(v);
    } else {
      var p0, p1 := parts[0], parts[1];
      assert v == p0 + "." + p1 by {
        assert JoinDots(parts) == p0 + "." + JoinDots(parts[1..]);
      }
      var q := if |p1| > 2 then p1[..2] else p1;
      assert r == p0 + "." + q;
      DotShape(p0, q);
      DotShape(p0, p1);
      assert v[|p0|] == '.' && |v| - (|p0| + 1) == |p1|;
      SanitizeDigitsDotDigits(p0, q);
    }
  }

  /** When the filtered text has two or more dots, the output is the text up
      to the first dot, the dot, and then: the first two characters after it
      when more than two digits stand between the first and second dots,
      and otherwise everything after the first dot with its dots deleted. */
  lemma SanitizeSeveralDots(s: string, k: nat, j: nat)
    requires k < |KeepPriceChars(s)| && KeepPriceChars(s)[k] == '.' && '.' !in KeepPriceChars(s)[..k]
    requires j < |KeepPriceChars(s)[k + 1..]| && KeepPriceChars(s)[k + 1..][j] == '.'
    requires '.' !in KeepPriceChars(s)[k + 1..][..j]
    ensures SanitizePrice(s) == KeepPriceChars(s)[..k + 1] +
      (if j > 2 then KeepPriceChars(s)[k + 1..][..2] else RemoveDots(KeepPriceChars(s)[k + 1..]))
  {
    var v := KeepPriceChars(s);
    var rest := v[k + 1..];
    FirstDot(v, k);
    FirstDot(rest, j);
    ConcatSplit(rest);
    assert v[..k + 1] == v[..k] + ".";
  }

  /** A short piece after the first dot lets every later digit through. */
  lemma SanitizeShortSecondPiece(v: string)
    // The input is a parameter rather than a literal in the postcondition:
    // a literal there lets the solver unfold the sanitiser on it without bound.
    requires v == "1.2.345"
    ensures SanitizePrice(v) == "1.2345"
  {
    KeepPriceCharsOfPriceChars(v);
    assert v[1] == '.' && '.' !in v[..1];
    var rest := v[2..];
    assert rest == "2.345";
    assert rest[1] == '.' && '.' !in rest[..1];
    SanitizeSeveralDots(v, 1, 1);
    assert RemoveDots("2.345") == "2345";
    var r := SanitizePrice(v);
    assert r == v[..2] + "2345";
    assert |r| == 6;
    assert r[0] == '1' && r[1] == '.' && r[2] == '2' && r[3] == '3' && r[4] == '4' && r[5] == '5';
  }

  /** A long piece after the first dot is cut to two characters and
      everything after it is dropped. */
  lemma SanitizeLongSecondPiece(v: string)
    // The input is a parameter rather than a literal in the postcondition:
    // a literal there lets the solver unfold the sanitiser on it without bound.
    requires v == "1.234.5"
    ensures SanitizePrice(v) == "1.23"
  {
    KeepPriceCharsOfPriceChars(v);
    assert v[1] == '.' && '.' !in v[..1];
    var rest := v[2..];
    assert rest == "234.5";
    assert rest[3] == '.' && '.' !in rest[..3];
    SanitizeSeveralDots(v, 1, 3);
    var r := SanitizePrice(v);
    assert r == v[..2] + rest[..2];
    assert |r| == 4;
    assert r[0] == '1' && r[1] == '.' && r[2] == '2' && r[3] == '3';
  }

  /** Typing a dot inside an existing price reaches the several-dots case:
      `"12.34"` with a dot typed after the `1` keeps three decimals. */
  lemma SanitizeTypedSecondDot(v: string)
    // The input is a parameter rather than a literal in the postcondition:
    // a literal there lets the solver unfold the sanitiser on it without bound.
    requires v == "1.2.34"
    ensures SanitizePrice(v) == "1.234"
  {
    KeepPriceCharsOfPriceChars(v);
    assert v[1] == '.' && '.' !in v[..1];
    var rest := v[2..];
    assert rest == "2.34";
    assert rest[1] == '.' && '.' !in rest[..1];
    SanitizeSeveralDots(v, 1, 1);
    assert RemoveDots("2.34") == "234";
    var r := SanitizePrice(v);
    assert r == v[..2] + "234";
    assert |r| == 5;
    assert r[0] == '1' && r[1] == '.' && r[2] == '2' && r[3] == '3' && r[4] == '4';
  }

  /** The quirk: a sanitised price can keep more than two decimals, and
      sanitising it again then changes it. */
  lemma SanitizeKeepsMoreThanTwoDecimals(v: string)
    // The input is a parameter rather than a literal in the postcondition:
    // a literal there lets the solver unfold the sanitiser on it without bound.
    requires v == "1.2.345"
    ensures SanitizePrice(v) == "1.2345"
    ensures SanitizePrice(SanitizePrice(v)) == "1.23"
  {
    SanitizeShortSecondPiece(v);
    var r := SanitizePrice(v);
    assert r[1] == '.' && r[..1] == "1" && r[2..] == "2345";
    DotShape("1", "2345");
    assert r == "1" + "." + "2345";
    KeepPriceCharsOfPriceChars(r);
    JoinSplit(["1", "2345"]);
    assert JoinDots(["1", "2345"]) == "1" + "." + JoinDots(["2345"]);
    assert Split(r) == ["1", "2345"];
    var r2 := SanitizePrice(r);
    assert r2 == "1" + "." + "23";
    assert |r2| == 4;
    assert r2[0] == '1' && r2[1] == '.' && r2[2] == '2' && r2[3] == '3';
  }

  /** The capped variant only differs from the original when the filtered
      text has several dots. */
  lemma CappedAgreesOnSingleDot(s: string)
    requires AtMostOneDot(KeepPriceChars(s))
    ensures SanitizePriceCapped(s) == SanitizePrice(s)
  {
    var v := KeepPriceChars(s);
    OneDotTwoPieces(v);
    SplitJoin(v);
    var parts := Split(v);
    if |parts| == 2 {
      assert Concat(parts[1..]) == parts[1] + Concat([]);
    }
  }

  /** Sanitising with the capped variant twice is sanitising once. */
  lemma CappedIdempotent(s: string)
    ensures SanitizePriceCapped(SanitizePriceCapped(s)) == SanitizePriceCapped(s)
  {
    var v := KeepPriceChars(s);
    var parts := Split(v);
    PartsAreDigits(v);
    if |parts| == 1 {
      SplitJoin(v);
      SanitizeDigits(v);
    } else {
      var decimals := Concat(parts[1..]);
      ConcatDigits(parts[1..]);
      var kept := if |decimals| > 2 then decimals[..2] else decimals;
      SanitizeDigitsDotDigits(parts[0], kept);
    }
  }

  /** With a dot in the filtered text, the capped variant keeps the text
      through the first dot and then the first two digits of everything
      after it. */
  lemma CappedWithDot(s: string, k: nat)
    requires k < |KeepPriceChars(s)| && KeepPriceChars(s)[k] == '.' && '.' !in KeepPriceChars(s)[..k]
    ensures var decimals := RemoveDots(KeepPriceChars(s)[k + 1..]);
      SanitizePriceCapped(s) == KeepPriceChars(s)[..k + 1] + (if |decimals| > 2 then decimals[..2] else decimals)
  {
    var v := KeepPriceChars(s);
    FirstDot(v, k);
    ConcatSplit(v[k + 1..]);
    assert v[..k + 1] == v[..k] + ".";
  }

  /** On the quirk's input the capped variant keeps two decimals. */
  lemma CappedExample(v: string)
    // The input is a parameter rather than a literal in the postcondition:
    // a literal there lets the solver unfold the sanitiser on it without bound.
    requires v == "1.2.345"
    ensures SanitizePriceCapped(v) == "1.23"
  {
    KeepPriceCharsOfPriceChars(v);
    assert v[1] == '.' && '.' !in v[..1];
    assert v[2..] == "2.345";
    CappedWithDot(v, 1);
    assert RemoveDots("2.345") == "2345";
    var r := SanitizePriceCapped(v);
    assert r == v[..2] + "23";
    assert |r| == 4;
    assert r[0] == '1' && r[1] == '.' && r[2] == '2' && r[3] == '3';
  }
}
