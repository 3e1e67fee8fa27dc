/** A model of the loop version of the ISBN-10 checker and check-digit fixer.

    An ISBN-10 is ten characters: nine decimal digits and a check symbol that
    is a digit or 'X' (standing for ten). Position i (counted from 0) carries
    weight 10 - i, and the code is valid when the weighted sum of the values is
    a multiple of 11 (the modulus-11 rule of ISO 2108).

    Python characters are Dafny chars; only the ASCII digits '0'..'9' count as
    digits. Where the Python program raises ValueError (int() applied to a
    character that is not a digit), the model returns the outcome ValueError.
 */
module Isbn10Checker {

  /** The result of a Python call that either returns a value or raises
      ValueError from int(); culprit is the character int() was given. */
  datatype Outcome<T> = Return(value: T) | ValueError(culprit: char)

  /** What the menu's "Check ISBN-10" option reports for one entered string. */
  datatype Verdict =
    | FormatInvalid
    | Valid
    | Invalid(checkDigit: char, corrected: string)

  // ---------------------------------------------------------------------------
  // Characters and their values
  // ---------------------------------------------------------------------------

  predicate IsDigit(c: char) {
    '0' <= c <= '9'
  }

  /** A character that may stand at an ISBN-10 position: a digit or 'X'. */
  predicate IsSymbol(c: char) {
    IsDigit(c) || c == 'X'
  }

  predicate IsSeparator(c: char) {
    c == '-' || c == ' '
  }

  predicate AllDigits(s: string) {
    forall i :: 0 <= i < |s| ==> IsDigit(s[i])
  }

  predicate AllSymbols(s: string) {
    forall i :: 0 <= i < |s| ==> IsSymbol(s[i])
  }

  /** The value the checksum uses: int(c) for a digit, 10 for 'X'. It is the
      position of c in the alphabet "0123456789X", so only 'X' is worth ten. */
  function Value(c: char): (v: nat)
    requires IsSymbol(c)
    ensures v <= 10
    ensures v == 10 <==> c == 'X'
    ensures "0123456789X"[v] == c
  {
    if c == 'X' then 10 else c as int - '0' as int
  }

  /** Values determine symbols: no two symbols share a value. */
  lemma ValueInjective(c: char, d: char)
    requires IsSymbol(c) && IsSymbol(d)
    ensures Value(c) == Value(d) <==> c == d
  {
  }

  /** The symbol for a value 0..10: str(v) for a digit value, "X" for ten.
      It is the symbol whose value is v. */
  function Symbol(v: nat): (c: char)
    requires v <= 10
    ensures IsSymbol(c) && Value(c) == v
    ensures c == "0123456789X"[v]
  {
    if v == 10 then 'X' else ('0' as int + v) as char
  }

  // ---------------------------------------------------------------------------
  // clean_isbn
  // ---------------------------------------------------------------------------

  /** str.replace(x, "") for a one-character x: every x is deleted, every
      other character is kept, as often as it occurs in s. */
  function Delete(s: string, x: char): (r: string)
    ensures x !in r
    ensures |r| <= |s|
  {
    if s == [] then []
    else (if s[0] == x then [] else [s[0]]) + Delete(s[1..], x)
  }

  /** Every character other than x occurs in Delete(s, x) as often as in s. */
  lemma {:induction false} DeleteCount(s: string, x: char, c: char)
    requires c != x
    ensures multiset(Delete(s, x))[c] == multiset(s)[c]
  {
    if s != [] {
      assert s == [s[0]] + s[1..];
      DeleteCount(s[1..], x, c);
    }
  }

  /** Deleting distributes over concatenation, so what survives keeps its order. */
  lemma {:induction false} DeleteAppend(a: string, b: string, x: char)
    ensures Delete(a + b, x) == Delete(a, x) + Delete(b, x)
  {
    if a == [] {
      assert a + b == b;
    } else {
      var head := if a[0] == x then [] else [a[0]];
      assert (a + b)[0] == a[0];
      assert (a + b)[1..] == a[1..] + b;
      DeleteAppend(a[1..], b, x);
      calc {
        Delete(a + b, x);
        head + Delete(a[1..] + b, x);
        head + (Delete(a[1..], x) + Delete(b, x));
        (head + Delete(a[1..], x)) + Delete(b, x);
      }
    }
  }

  /** A string without x is left alone. */
  lemma {:induction false} DeleteAbsent(s: string, x: char)
    requires x !in s
    ensures Delete(s, x) == s
  {
    if s != [] {
      assert x !in s[1..];
      DeleteAbsent(s[1..], x);
    }
  }

  /** clean_isbn: isbn.replace("-", "").replace(" ", ""). Letter case is not
      changed. The result is no longer than the input and holds no separator. */
  function Clean(isbn: string): (r: string)
    ensures |r| <= |isbn|
    ensures forall i :: 0 <= i < |r| ==> !IsSeparator(r[i])
  {
    var once := Delete(isbn, '-');
    var r := Delete(once, ' ');
    assert '-' !in r by {
      DeleteCount(once, ' ', '-');
      assert multiset(once)['-'] == 0;
    }
    r
  }

  /** Cleaning keeps every character that is not a separator, unchanged and
      as often as it occurs in the input. */
  lemma CleanCount(isbn: string, c: char)
    requires !IsSeparator(c)
    ensures multiset(Clean(isbn))[c] == multiset(isbn)[c]
  {
    DeleteCount(isbn, '-', c);
    DeleteCount(Delete(isbn, '-'), ' ', c);
  }

  /** Cleaning a concatenation cleans each part in place: the characters that
      survive keep their original order, and each part is cleaned alone. */
  lemma CleanAppend(a: string, b: string)
    ensures Clean(a + b) == Clean(a) + Clean(b)
  {
    DeleteAppend(a, b, '-');
    DeleteAppend(Delete(a, '-'), Delete(b, '-'), ' ');
  }

  /** A single character is dropped exactly when it is a separator. */
  lemma CleanChar(c: char)
    ensures Clean([c]) == if IsSeparator(c) then [] else [c]
  {
  }

  /** A string without separators is already clean. */
  lemma CleanUnchanged(s: string)
    requires forall i :: 0 <= i < |s| ==> !IsSeparator(s[i])
    ensures Clean(s) == s
  {
    assert '-' !in s && ' ' !in s;
    DeleteAbsent(s, '-');
    DeleteAbsent(s, ' ');
  }

  /** Cleaning is idempotent. */
  lemma CleanIdempotent(s: string)
    ensures Clean(Clean(s)) == Clean(s)
  {
    CleanUnchanged(Clean(s));
  }

  // ---------------------------------------------------------------------------
  // The weighted sum
  // ---------------------------------------------------------------------------

  /** The sum of Value(s[i]) * (top - i) over all positions i of s. It is
      never negative while every weight is (top >= |s| - 1). */
  function WeightedSum(s: string, top: int): (r: int)
    requires AllSymbols(s)
    ensures top >= |s| - 1 ==> r >= 0
  {
    if s == [] then 0
    else WeightedSum(s[..|s| - 1], top) + Value(s[|s| - 1]) * (top - (|s| - 1))
  }

  /** Appending a symbol adds its value times the next weight. */
  lemma WeightedSumSnoc(s: string, c: char, top: int)
    requires AllSymbols(s) && IsSymbol(c)
    ensures AllSymbols(s + [c])
    ensures WeightedSum(s + [c], top) == WeightedSum(s, top) + Value(c) * (top - |s|)
  {
  }

  /** The weighted sum of a prefix grows by one term per character. */
  lemma WeightedSumPrefix(s: string, k: nat, top: int)
    requires AllSymbols(s) && 0 < k <= |s|
    ensures WeightedSum(s[..k], top) == WeightedSum(s[..k - 1], top) + Value(s[k - 1]) * (top - (k - 1))
  {
    assert s[..k][..k - 1] == s[..k - 1];
  }

  /** Replacing the symbol at position i changes the weighted sum by the
      change of value times the weight of position i. */
  lemma {:induction false} WeightedSumUpdate(s: string, i: nat, c: char, top: int)
    requires AllSymbols(s) && i < |s| && IsSymbol(c)
    ensures AllSymbols(s[i := c])
    ensures WeightedSum(s[i := c], top) == WeightedSum(s, top) + (Value(c) - Value(s[i])) * (top - i)
  {
    var n := |s| - 1;
    var u := s[i := c];
    assert AllSymbols(u) by {
      assert forall j :: 0 <= j < |u| ==> u[j] == if j == i then c else s[j];
    }
    if i == n {
      assert u[..n] == s[..n];
      assert Value(c) * (top - n) - Value(s[n]) * (top - n) == (Value(c) - Value(s[n])) * (top - n);
    } else {
      assert u[..n] == s[..n][i := c] && u[n] == s[n];
      WeightedSumUpdate(s[..n], i, c, top);
    }
  }

  /** Swapping the symbols at positions i and i + 1 changes the weighted sum
      by exactly the difference of the two values: the weights differ by one. */
  lemma WeightedSumSwap(s: string, i: nat, top: int)
    requires AllSymbols(s) && i + 1 < |s|
    ensures AllSymbols(s[i := s[i + 1]][i + 1 := s[i]])
    ensures WeightedSum(s[i := s[i + 1]][i + 1 := s[i]], top) == WeightedSum(s, top) + (Value(s[i + 1]) - Value(s[i]))
  {
    var a, b := s[i], s[i + 1];
    var once := s[i := b];
    var d := Value(b) - Value(a);
    WeightedSumUpdate(s, i, b, top);
    assert once[i + 1] == b;
    WeightedSumUpdate(once, i + 1, a, top);
    assert d * (top - i) + (-d) * (top - (i + 1)) == d;
  }

  // ---------------------------------------------------------------------------
  // compute_check_digit
  // ---------------------------------------------------------------------------

  /** The check digit of a digit string: (11 - sum % 11) % 11 rendered as a
      digit, or 'X' for ten. It is one of "0123456789X", and its value added
      to the weighted sum gives a multiple of 11; on nine digits that is the
      symbol which, placed at weight 1, completes a valid ISBN-10. */
  function CheckDigit(isbn9: string): (r: char)
    requires AllDigits(isbn9)
    ensures r in "0123456789X"
    ensures r == 'X' <==> (11 - WeightedSum(isbn9, 10) % 11) % 11 == 10
    ensures (WeightedSum(isbn9, 10) + Value(r)) % 11 == 0
  {
    var sum := WeightedSum(isbn9, 10);
    var v := (11 - sum % 11) % 11;
    Complement(sum);
    var r := Symbol(v);
    assert r == "0123456789X"[v];
    r
  }

  /** (11 - sum % 11) % 11 is the value 0..10 that makes sum a multiple of 11. */
  lemma Complement(sum: int)
    ensures 0 <= (11 - sum % 11) % 11 <= 10
    ensures (sum + (11 - sum % 11) % 11) % 11 == 0
  {
  }

  /** compute_check_digit: the loop over the digits keeps weight == 10 - i and
      total equal to the weighted sum of the digits seen so far. */
  method ComputeCheckDigit(isbn9: string) returns (r: char)
    requires AllDigits(isbn9)
    ensures r == CheckDigit(isbn9)
  {
    var total := 0;
    var weight := 10;
    var i := 0;
    while i < |isbn9|
      invariant 0 <= i <= |isbn9|
      invariant weight == 10 - i
      invariant total == WeightedSum(isbn9[..i], 10)
    {
      var digit := isbn9[i];
      WeightedSumSnoc(isbn9[..i], digit, 10);
      assert isbn9[..i + 1] == isbn9[..i] + [digit];
      total := total + (digit as int - '0' as int) * weight;
      weight := weight - 1;
      i := i + 1;
    }
    assert isbn9[..i] == isbn9;
    var checkDigit := (11 - total % 11) % 11;
    r := if checkDigit == 10 then 'X' else ('0' as int + checkDigit) as char;
  }

  // ---------------------------------------------------------------------------
  // is_valid_isbn10
  // ---------------------------------------------------------------------------

  /** The gate of is_valid_isbn10 and of the menu: length 10 and the first nine
      characters are digits. The tenth character is not checked here. */
  predicate PassesFormatCheck(code: string)
    ensures PassesFormatCheck(code) <==> |code| == 10 && forall i :: 0 <= i < 9 ==> IsDigit(code[i])
  {
    assert |code| >= 9 ==> forall i :: 0 <= i < 9 ==> code[..9][i] == code[i];
    |code| == 10 && AllDigits(code[..9])
  }

  /** What is_valid_isbn10 does with a string: clean it, then check the code.
      Cleaning never lengthens, so an input shorter than ten characters is
      answered false. */
  function Validity(isbn: string): (r: Outcome<bool>)
    ensures |isbn| < 10 ==> r == Return(false)
  {
    CodeValidity(Clean(isbn))
  }

  /** A cleaned code that passes the gate and whose tenth character int()
      accepts or that is 'X': ten symbols, the first nine of them digits. */
  predicate IsCandidate(code: string) {
    PassesFormatCheck(code) && IsSymbol(code[9])
  }

  /** Every position of a candidate holds a symbol. */
  lemma CandidateSymbols(code: string)
    requires IsCandidate(code)
    ensures |code| == 10 && AllSymbols(code)
  {
  }

  /** The ISBN-10 checksum of a candidate: the weighted sum of its ten values
      with weights 10 down to 1. */
  function Checksum(code: string): (r: int)
    requires IsCandidate(code)
  {
    CandidateSymbols(code);
    WeightedSum(code, 10)
  }

  /** The checksum written out term by term: weight 10 on the first position
      down to weight 1 on the check symbol. */
  lemma ChecksumExplicit(code: string)
    requires IsCandidate(code)
    ensures AllSymbols(code)
    ensures Checksum(code) ==
      10 * Value(code[0]) + 9 * Value(code[1]) + 8 * Value(code[2]) + 7 * Value(code[3])
      + 6 * Value(code[4]) + 5 * Value(code[5]) + 4 * Value(code[6]) + 3 * Value(code[7])
      + 2 * Value(code[8]) + Value(code[9])
  {
    CandidateSymbols(code);
    assert code[..10] == code;
    assert code[..0] == [];
    WeightedSumPrefix(code, 10, 10);
    WeightedSumPrefix(code, 9, 10);
    WeightedSumPrefix(code, 8, 10);
    WeightedSumPrefix(code, 7, 10);
    WeightedSumPrefix(code, 6, 10);
    WeightedSumPrefix(code, 5, 10);
    WeightedSumPrefix(code, 4, 10);
    WeightedSumPrefix(code, 3, 10);
    WeightedSumPrefix(code, 2, 10);
    WeightedSumPrefix(code, 1, 10);
  }

  /** What is_valid_isbn10 does with a cleaned code: answer false when the
      gate fails; raise ValueError when the tenth character is neither a digit
      nor 'X'; otherwise answer whether the checksum is a multiple of 11. */
  function CodeValidity(code: string): (r: Outcome<bool>)
    ensures r.ValueError? <==> PassesFormatCheck(code) && !IsSymbol(code[9])
    ensures r.ValueError? ==> r.culprit == code[9]
    ensures r == Return(true) ==> IsCandidate(code) && Checksum(code) % 11 == 0
  {
    if !PassesFormatCheck(code) then Return(false)
    else if !IsSymbol(code[9]) then ValueError(code[9])
    else Return(Checksum(code) % 11 == 0)
  }

  /** is_valid_isbn10. The gate comes before any checksum work; the checksum
      loop keeps weight == 10 - i and total equal to the weighted sum of the
      first i characters. */
  method IsValidIsbn10(isbn: string) returns (r: Outcome<bool>)
    ensures r == Validity(isbn)
    ensures !PassesFormatCheck(Clean(isbn)) ==> r == Return(false)
    ensures PassesFormatCheck(Clean(isbn)) && !IsSymbol(Clean(isbn)[9]) ==> r == ValueError(Clean(isbn)[9])
    ensures IsCandidate(Clean(isbn)) ==> r == Return(Checksum(Clean(isbn)) % 11 == 0)
  {
    var code := Clean(isbn);
    if |code| != 10 || !AllDigits(code[..9]) {
      return Return(false);
    }
    assert forall i :: 0 <= i < 9 ==> IsDigit(code[i]) by {
      assert forall i :: 0 <= i < 9 ==> code[i] == code[..9][i];
    }
    var total := 0;
    var weight := 10;
    var i := 0;
    while i < 10
      invariant 0 <= i <= 10
      invariant weight == 10 - i
      invariant AllSymbols(code[..i])
      invariant total == WeightedSum(code[..i], 10)
    {
      var value;
      if code[i] == 'X' {
        value := 10;
      } else if IsDigit(code[i]) {
        value := code[i] as int - '0' as int;
      } else {
        return ValueError(code[i]);
      }
      WeightedSumSnoc(code[..i], code[i], 10);
      assert code[..i + 1] == code[..i] + [code[i]];
      total := total + value * weight;
      weight := weight - 1;
      i := i + 1;
    }
    assert code[..10] == code;
    assert IsCandidate(code);
    r := Return(total % 11 == 0);
  }

  // ---------------------------------------------------------------------------
  // Properties of validation and correction
  // ---------------------------------------------------------------------------

  /** Validation sees only the cleaned string: validating it again after
      cleaning gives the same answer. */
  lemma ValidityOfClean(s: string)
    ensures Validity(Clean(s)) == Validity(s)
  {
    CleanIdempotent(s);
    assert Validity(Clean(s)) == CodeValidity(Clean(Clean(s)));
  }

  /** On a string without separators, validation checks the string itself. */
  lemma ValidityWithoutSeparators(code: string)
    requires forall i :: 0 <= i < |code| ==> !IsSeparator(code[i])
    ensures Validity(code) == CodeValidity(code)
  {
    CleanUnchanged(code);
  }

  /** A hyphen or space inserted anywhere does not change the answer. */
  lemma ValidityIgnoresSeparator(a: string, c: char, b: string)
    requires IsSeparator(c)
    ensures Validity(a + [c] + b) == Validity(a + b)
  {
    CleanAppend(a + [c], b);
    CleanAppend(a, [c]);
    CleanChar(c);
    CleanAppend(a, b);
    assert Clean(a + [c]) == Clean(a);
    assert Clean(a + [c] + b) == Clean(a + b);
  }

  /** A ValueError names a character the user typed: one that is neither a
      separator nor a digit nor 'X'. */
  lemma ValidityCulprit(isbn: string)
    ensures Validity(isbn).ValueError? ==>
      Validity(isbn).culprit in isbn && !IsSeparator(Validity(isbn).culprit) && !IsSymbol(Validity(isbn).culprit)
  {
    var code := Clean(isbn);
    var r := Validity(isbn);
    if r.ValueError? {
      assert r.culprit == code[9];
      assert r.culprit in multiset(code);
      CleanCount(isbn, r.culprit);
    }
  }

  /** On nine digits followed by one symbol, validation never raises, and it
      accepts exactly when the last symbol completes the weighted sum. */
  lemma ValidityOfCandidate(isbn9: string, c: char)
    requires |isbn9| == 9 && AllDigits(isbn9) && IsSymbol(c)
    ensures Validity(isbn9 + [c]) == Return((WeightedSum(isbn9, 10) + Value(c)) % 11 == 0)
  {
    var code := isbn9 + [c];
    WeightedSumSnoc(isbn9, c, 10);
    assert forall i :: 0 <= i < |code| ==> !IsSeparator(code[i]) by {
      assert AllSymbols(code);
    }
    CleanUnchanged(code);
    assert code[..9] == isbn9;
    assert PassesFormatCheck(code) && code[9] == c;
    assert Checksum(code) == WeightedSum(isbn9, 10) + Value(c);
    assert Validity(code) == CodeValidity(code);
  }

  /** Uniqueness of the check digit: nine digits followed by a symbol form a
      valid ISBN-10 exactly when that symbol is the computed check digit. */
  lemma CheckDigitUnique(isbn9: string, c: char)
    requires |isbn9| == 9 && AllDigits(isbn9) && IsSymbol(c)
    ensures Validity(isbn9 + [c]) == Return(true) <==> c == CheckDigit(isbn9)
  {
    ValidityOfCandidate(isbn9, c);
    var d := CheckDigit(isbn9);
    var s := WeightedSum(isbn9, 10);
    if (s + Value(c)) % 11 == 0 {
      OneCompletion(s, Value(c), Value(d));
    }
    ValueInjective(c, d);
  }

  /** At most one value 0..10 completes a sum to a multiple of 11. */
  lemma OneCompletion(sum: int, u: int, v: int)
    requires 0 <= u <= 10 && 0 <= v <= 10
    requires (sum + u) % 11 == 0 && (sum + v) % 11 == 0
    ensures u == v
  {
  }

  /** Round trip: nine digits followed by their computed check digit always
      form a valid ISBN-10, so the correction the menu prints is valid. */
  lemma CheckDigitRoundTrip(isbn9: string)
    requires |isbn9| == 9 && AllDigits(isbn9)
    ensures Validity(isbn9 + [CheckDigit(isbn9)]) == Return(true)
  {
    ValidityOfCandidate(isbn9, CheckDigit(isbn9));
  }

  /** The error edge: nine digits followed by a lower-case 'x' pass the gate,
      and int('x') then raises; the answer is neither true nor false. */
  lemma LowercaseXRaises(isbn9: string)
    requires |isbn9| == 9 && AllDigits(isbn9)
    ensures Validity(isbn9 + ['x']) == ValueError('x')
  {
    var code := isbn9 + ['x'];
    assert forall i :: 0 <= i < |code| ==> !IsSeparator(code[i]) by {
      assert forall i :: 0 <= i < 9 ==> code[i] == isbn9[i];
    }
    ValidityWithoutSeparators(code);
    assert code[..9] == isbn9;
  }

  /** The modulus-11 check catches every single-symbol error: changing one
      position of a valid candidate to another symbol makes it invalid. An 'X'
      written among the first nine positions already fails the gate. */
  lemma DetectsSingleSubstitution(code: string, i: nat, c: char)
    requires IsCandidate(code) && CodeValidity(code) == Return(true)
    requires i < 10 && IsSymbol(c) && c != code[i]
    ensures CodeValidity(code[i := c]) == Return(false)
  {
    CandidateSymbols(code);
    var other := code[i := c];
    if !PassesFormatCheck(other) {
      return;
    }
    assert other[9] == if i == 9 then c else code[9];
    var d := Value(c) - Value(code[i]);
    ValueInjective(c, code[i]);
    WeightedSumUpdate(code, i, c, 10);
    NoMultipleOfEleven(d, 10 - i);
    ShiftByNonMultiple(Checksum(code), d * (10 - i));
  }

  /** The modulus-11 check catches every swap of two different adjacent
      symbols of a valid candidate. Moving an 'X' check symbol into position 8
      already fails the gate. */
  lemma DetectsAdjacentTransposition(code: string, i: nat)
    requires IsCandidate(code) && CodeValidity(code) == Return(true)
    requires i < 9 && code[i] != code[i + 1]
    ensures CodeValidity(code[i := code[i + 1]][i + 1 := code[i]]) == Return(false)
  {
    CandidateSymbols(code);
    var a, b := code[i], code[i + 1];
    var other := code[i := b][i + 1 := a];
    if !PassesFormatCheck(other) {
      return;
    }
    var d := Value(b) - Value(a);
    WeightedSumSwap(code, i, 10);
    assert IsCandidate(other) by {
      assert other[9] == if i == 8 then a else code[9];
    }
    ValueInjective(a, b);
    NoMultipleOfEleven(d, 1);
    ShiftByNonMultiple(Checksum(code), d);
    assert Checksum(other) == Checksum(code) + d;
  }

  /** Adding a non-multiple of 11 to a multiple of 11 gives a non-multiple. */
  lemma ShiftByNonMultiple(x: int, y: int)
    requires x % 11 == 0 && y % 11 != 0
    ensures (x + y) % 11 != 0
  {
  }

  /** A product of a weight 1..10 and a nonzero difference of two values is
      not a multiple of 11, because 11 is prime. */
  lemma NoMultipleOfEleven(d: int, w: int)
    requires d != 0 && -10 <= d <= 10 && 1 <= w <= 10
    ensures (d * w) % 11 != 0
  {
  }

  // ---------------------------------------------------------------------------
  // The validate/correct decision of the menu
  // ---------------------------------------------------------------------------

  /** The decision the menu makes for one entered string. The format verdict
      is given exactly when the gate fails; Valid exactly when is_valid_isbn10
      returns true; the ValueError of is_valid_isbn10 passes through; and an
      Invalid verdict suggests the first nine cleaned characters followed by
      a check digit that differs from the entered one and makes them valid. */
  function Classify(isbn: string): (r: Outcome<Verdict>)
    ensures r == Return(FormatInvalid) <==> !PassesFormatCheck(Clean(isbn))
    ensures r == Return(Valid) <==> Validity(isbn) == Return(true)
    ensures r.ValueError? <==> Validity(isbn).ValueError?
    ensures r.ValueError? ==> r == ValueError(Validity(isbn).culprit)
    ensures r.Return? && r.value.Invalid? ==>
      && r.value.corrected == Clean(isbn)[..9] + [r.value.checkDigit]
      && r.value.checkDigit != Clean(isbn)[9]
      && Validity(r.value.corrected) == Return(true)
  {
    var cleaned := Clean(isbn);
    if !PassesFormatCheck(cleaned) then Return(FormatInvalid)
    else
      match Validity(isbn)
      case ValueError(c) => ValueError(c)
      case Return(true) => Return(Valid)
      case Return(false) =>
        var prefix := cleaned[..9];
        assert cleaned == prefix + [cleaned[9]];
        ValidityOfClean(isbn);
        CheckDigitUnique(prefix, cleaned[9]);
        CheckDigitRoundTrip(prefix);
        var correctDigit := CheckDigit(prefix);
        Return(Invalid(correctDigit, prefix + [correctDigit]))
  }

  /** The decision as the menu computes it, calling the two checker routines. */
  method CheckOrCorrect(isbn: string) returns (r: Outcome<Verdict>)
    ensures r == Classify(isbn)
  {
    var cleaned := Clean(isbn);
    if |cleaned| != 10 || !AllDigits(cleaned[..9]) {
      return Return(FormatInvalid);
    }
    var valid := IsValidIsbn10(isbn);
    match valid
    case ValueError(c) =>
      r := ValueError(c);
    case Return(true) =>
      r := Return(Valid);
    case Return(false) =>
      var correctDigit := ComputeCheckDigit(cleaned[..9]);
      r := Return(Invalid(correctDigit, cleaned[..9] + [correctDigit]));
  }

  // ---------------------------------------------------------------------------
  // Worked cases
  // ---------------------------------------------------------------------------

  // The worked cases below take the literal as a parameter, so that the
  // verifier reasons about it through the lemmas above instead of unrolling
  // the definitions on the literal.

  /** "0306406152" and "155404295X" are valid; in the second 'X' stands for ten. */
  lemma WorkedValid(isbn: string)
    requires isbn == "0306406152" || isbn == "155404295X"
    ensures Validity(isbn) == Return(true)
  {
    ValidityWithoutSeparators(isbn);
    ChecksumExplicit(isbn);
  }

  /** "0-306-40615-2" is valid: it cleans to "0306406152". */
  lemma WorkedValidHyphenated(isbn: string)
    requires isbn == "0-306-40615-2"
    ensures Validity(isbn) == Return(true)
  {
    ValidityIgnoresSeparator("0", '-', "306-40615-2");
    ValidityIgnoresSeparator("0306", '-', "40615-2");
    ValidityIgnoresSeparator("030640615", '-', "2");
    assert "0" + "-" + "306-40615-2" == isbn;
    assert "0" + "306-40615-2" == "0306" + "-" + "40615-2";
    assert "0306" + "40615-2" == "030640615" + "-" + "2";
    assert "030640615" + "2" == "0306406152";
    WorkedValid("0306406152");
  }

  /** The check digit of 030640615 is 2. */
  lemma WorkedCheckDigit(isbn9: string)
    requires isbn9 == "030640615"
    ensures CheckDigit(isbn9) == '2'
  {
    assert isbn9 + ['2'] == "0306406152";
    WorkedValid(isbn9 + ['2']);
    CheckDigitUnique(isbn9, '2');
  }

  /** "0306406153" is invalid and is corrected to "0306406152". */
  lemma WorkedCorrection(isbn: string)
    requires isbn == "0306406153"
    ensures Classify(isbn) == Return(Invalid('2', "0306406152"))
  {
    ValidityWithoutSeparators(isbn);
    ChecksumExplicit(isbn);
    CleanUnchanged(isbn);
    assert isbn[..9] == "030640615";
    WorkedCheckDigit(isbn[..9]);
    assert "030640615" + ['2'] == "0306406152";
  }

  /** A five-character input fails the format check. */
  lemma WorkedTooShort(isbn: string)
    requires isbn == "12345"
    ensures Classify(isbn) == Return(FormatInvalid)
  {
  }

  /** A lower-case 'x' check symbol passes the gate and then makes int() raise. */
  lemma WorkedLowercaseX(isbn: string)
    requires isbn == "155404295x"
    ensures Validity(isbn) == ValueError('x')
  {
    ValidityWithoutSeparators(isbn);
    assert isbn[..9] == "155404295";
  }
}
