/**
 * The password-format rule of the login and sign-up screens: the regular
 * expression `/^(?=.*[A-Z])(?=.*[\W_]).{8,}$/` (no flags) applied with `test`.
 *
 * A JavaScript regular expression without the `u` flag reads its input as
 * UTF-16 code units, and `.length` counts code units too, so the rule is
 * defined on the UTF-16 encoding of the string. A character outside the
 * Basic Multilingual Plane becomes two surrogate code units: both match `.`
 * and both match `[\W_]`, and together they count as 2 towards `{8,}`.
 */
module PasswordRule {

  /** One UTF-16 code unit. */
  newtype CodeUnit = x: int | 0 <= x < 0x1_0000

  /** The UTF-16 encoding of one character: one unit in the Basic
      Multilingual Plane, a surrogate pair above it. */
  function EncodeChar(c: char): (u: seq<CodeUnit>)
    ensures |u| == (if (c as int) < 0x1_0000 then 1 else 2)
    ensures (c as int) < 0x1_0000 ==> u[0] as int == c as int
    ensures (c as int) >= 0x1_0000 ==> forall x :: x in u ==> 0xD800 <= x < 0xE000
  {
    var v := c as int;
    if v < 0x1_0000 then [v as CodeUnit]
    else [(0xD800 + (v - 0x1_0000) / 0x400) as CodeUnit, (0xDC00 + (v - 0x1_0000) % 0x400) as CodeUnit]
  }

  /** The JavaScript string value of `s`. */
  function Utf16(s: string): (u: seq<CodeUnit>)
  {
    if s == [] then [] else EncodeChar(s[0]) + Utf16(s[1..])
  }

  /** JavaScript's `s.length`. */
  function Utf16Length(s: string): (n: nat)
  {
    |Utf16(s)|
  }

  // ---- The pattern, over code units ----------------------------------------

  /** The character classes the pattern uses; `.` is "not LineTerminator". */
  datatype UnitClass =
    | LineTerminator       // \n, \r, U+2028, U+2029: the units `.` refuses
    | UpperRange           // [A-Z]
    | NonWordOrUnderscore  // [\W_]: anything but A-Z, a-z, 0-9

  predicate IsWordUnit(x: CodeUnit)
  {
    (0x30 <= x <= 0x39) || (0x41 <= x <= 0x5A) || (0x61 <= x <= 0x7A) || x == 0x5F
  }

  predicate InClass(k: UnitClass, x: CodeUnit)
  {
    match k
    case LineTerminator => x == 0x0A || x == 0x0D || x == 0x2028 || x == 0x2029
    case UpperRange => 0x41 <= x <= 0x5A
    case NonWordOrUnderscore => !IsWordUnit(x) || x == 0x5F
  }

  /** Every unit of `u` matches `.` (the pattern has no `s` flag). */
  predicate AllDot(u: seq<CodeUnit>)
  {
    forall i :: 0 <= i < |u| ==> !InClass(LineTerminator, u[i])
  }

  /** The lookahead `(?=.*K)` tried at position 0: some prefix of `.`s is
      followed by a unit of class `k`. */
  predicate LookaheadAtStart(u: seq<CodeUnit>, k: UnitClass)
  {
    exists j :: 0 <= j < |u| && AllDot(u[..j]) && InClass(k, u[j])
  }

  /** `^ (?=.*[A-Z]) (?=.*[\W_]) .{8,} $`: both lookaheads hold at the start
      (no `m` flag, so `^` is position 0 only) and the rest of the input, up
      to its very end, is at least eight units that each match `.`. */
  predicate PatternMatches(u: seq<CodeUnit>)
  {
    && LookaheadAtStart(u, UpperRange)
    && LookaheadAtStart(u, NonWordOrUnderscore)
    && |u| >= 8 && AllDot(u)
  }

  /** `validatePassword(password)` of both screens. */
  predicate ValidatePassword(password: string)
  {
    PatternMatches(Utf16(password))
  }

  // ---- The rule in terms of characters -------------------------------------

  predicate IsLineTerminator(c: char)
  {
    c == '\n' || c == '\r' || c == '\U{2028}' || c == '\U{2029}'
  }

  predicate IsAsciiUpper(c: char)
  {
    'A' <= c <= 'Z'
  }

  predicate IsAsciiAlphanumeric(c: char)
  {
    ('0' <= c <= '9') || ('A' <= c <= 'Z') || ('a' <= c <= 'z')
  }

  /** A character `[\W_]` accepts: underscore, space, punctuation and every
      non-ASCII character. */
  predicate IsSpecial(c: char)
  {
    !IsAsciiAlphanumeric(c)
  }

  /** The class of units `k` seen at the level of whole characters. */
  predicate CharInClass(k: UnitClass, c: char)
  {
    match k
    case LineTerminator => IsLineTerminator(c)
    case UpperRange => IsAsciiUpper(c)
    case NonWordOrUnderscore => IsSpecial(c)
  }

  predicate SomeUnit(k: UnitClass, u: seq<CodeUnit>)
  {
    exists j :: 0 <= j < |u| && InClass(k, u[j])
  }

  predicate SomeChar(k: UnitClass, s: string)
  {
    exists i :: 0 <= i < |s| && CharInClass(k, s[i])
  }

  /** The rule as the error message words it: at least 8 long (in code
      units), one upper-case letter `A`-`Z`, one character that is not an
      ASCII letter or digit, and no line terminator anywhere. */
  predicate MeetsPasswordRule(s: string)
  {
    && Utf16Length(s) >= 8
    && (forall i :: 0 <= i < |s| ==> !IsLineTerminator(s[i]))
    && (exists i :: 0 <= i < |s| && IsAsciiUpper(s[i]))
    && (exists i :: 0 <= i < |s| && IsSpecial(s[i]))
  }

  /** Over code units the two lookaheads are plain existence, because the
      final `.{8,}$` already demands that every unit matches `.`. */
  lemma PatternMatchesMeaning(u: seq<CodeUnit>)
    ensures PatternMatches(u) <==>
      |u| >= 8 && !SomeUnit(LineTerminator, u) && SomeUnit(UpperRange, u) && SomeUnit(NonWordOrUnderscore, u)
  {
    if |u| >= 8 && AllDot(u) {
      forall k | k != LineTerminator && SomeUnit(k, u)
        ensures LookaheadAtStart(u, k)
      {
        var j :| 0 <= j < |u| && InClass(k, u[j]);
        assert AllDot(u[..j]) by {
          forall i | 0 <= i < j ensures !InClass(LineTerminator, u[..j][i]) {
            assert u[..j][i] == u[i];
          }
        }
      }
    }
    if PatternMatches(u) {
      var j :| 0 <= j < |u| && AllDot(u[..j]) && InClass(UpperRange, u[j]);
      var j' :| 0 <= j' < |u| && AllDot(u[..j']) && InClass(NonWordOrUnderscore, u[j']);
      assert SomeUnit(UpperRange, u) && SomeUnit(NonWordOrUnderscore, u);
    }
  }

  /** Every unit a character encodes to is in class `k` exactly when the
      character is: for a surrogate pair both halves are `[\W_]` and
      neither is a line terminator nor `[A-Z]`. */
  lemma EncodeCharClass(k: UnitClass, c: char)
    ensures forall x :: x in EncodeChar(c) ==> (InClass(k, x) <==> CharInClass(k, c))
  {
  }

  lemma SomeUnitConcat(k: UnitClass, a: seq<CodeUnit>, b: seq<CodeUnit>)
    ensures SomeUnit(k, a + b) <==> SomeUnit(k, a) || SomeUnit(k, b)
  {
    if SomeUnit(k, a + b) {
      var j :| 0 <= j < |a + b| && InClass(k, (a + b)[j]);
      if j >= |a| { assert (a + b)[j] == b[j - |a|]; }
    }
    if SomeUnit(k, a) {
      var j :| 0 <= j < |a| && InClass(k, a[j]);
      assert (a + b)[j] == a[j];
    }
    if SomeUnit(k, b) {
      var j :| 0 <= j < |b| && InClass(k, b[j]);
      assert (a + b)[|a| + j] == b[j];
    }
  }

  /** The encoding holds a unit of class `k` exactly when the string holds a
      character of class `k`. */
  lemma {:induction false} Utf16Class(k: UnitClass, s: string)
    ensures SomeUnit(k, Utf16(s)) <==> SomeChar(k, s)
  {
    if s != [] {
      var e := EncodeChar(s[0]);
      SomeUnitConcat(k, e, Utf16(s[1..]));
      Utf16Class(k, s[1..]);
      EncodeCharClass(k, s[0]);
      assert SomeUnit(k, e) <==> CharInClass(k, s[0]) by {
        assert e[0] in e;
      }
      if SomeChar(k, s[1..]) {
        var i :| 0 <= i < |s[1..]| && CharInClass(k, s[1..][i]);
        assert s[1..][i] == s[i + 1];
      }
      if SomeChar(k, s) {
        var i :| 0 <= i < |s| && CharInClass(k, s[i]);
        if i > 0 { assert s[1..][i - 1] == s[i]; }
      }
    }
  }

  /** `validatePassword` accepts exactly the strings that meet the rule. */
  lemma ValidatePasswordMeaning(s: string)
    ensures ValidatePassword(s) <==> MeetsPasswordRule(s)
  {
    PatternMatchesMeaning(Utf16(s));
    Utf16Class(LineTerminator, s);
    Utf16Class(UpperRange, s);
    Utf16Class(NonWordOrUnderscore, s);
  }

  /** `.length` counts each character once or twice, and exactly once when
      every character lies in the Basic Multilingual Plane. */
  lemma {:induction false} Utf16LengthBounds(s: string)
    ensures |s| <= Utf16Length(s) <= 2 * |s|
    ensures (forall i :: 0 <= i < |s| ==> (s[i] as int) < 0x1_0000) ==> Utf16Length(s) == |s|
  {
    if s != [] {
      Utf16LengthBounds(s[1..]);
      if forall i :: 0 <= i < |s| ==> (s[i] as int) < 0x1_0000 {
        assert forall i :: 0 <= i < |s[1..]| ==> (s[1..][i] as int) < 0x1_0000 by {
          forall i | 0 <= i < |s[1..]| ensures (s[1..][i] as int) < 0x1_0000 {
            assert s[1..][i] == s[i + 1];
          }
        }
      }
    }
  }

  /** A well-formed password is never empty: it has at least four
      characters (eight units, at most two per character). */
  lemma ValidPasswordNotEmpty(s: string)
    ensures ValidatePassword(s) ==> |s| >= 4 && s != ""
  {
    Utf16LengthBounds(s);
  }

  // ---- Worked cases ---------------------------------------------------------

  /** The underscore is a special character and eight ASCII characters are
      long enough. */
  lemma AcceptsUnderscore()
    ensures ValidatePassword("Secret_1")
  {
    var s := "Secret_1";
    ValidatePasswordMeaning(s);
    Utf16LengthBounds(s);
    assert IsAsciiUpper(s[0]) && IsSpecial(s[6]);
  }

  /** Seven ASCII characters (seven code units) are too few. */
  lemma RejectsSevenCharacters()
    ensures !ValidatePassword("Secr_1A")
  {
    Utf16LengthBounds("Secr_1A");
  }

  /** Without an upper-case ASCII letter the rule fails. */
  lemma RejectsWithoutUpper()
    ensures !ValidatePassword("secret_12")
  {
    var s := "secret_12";
    PatternMatchesMeaning(Utf16(s));
    Utf16Class(UpperRange, s);
    assert !SomeChar(UpperRange, s);
  }

  /** Digits are not special characters. */
  lemma RejectsWithoutSpecial()
    ensures !ValidatePassword("Secret123")
  {
    var s := "Secret123";
    PatternMatchesMeaning(Utf16(s));
    Utf16Class(NonWordOrUnderscore, s);
    assert !SomeChar(NonWordOrUnderscore, s);
  }

  /** `.` does not match a line feed, so a trailing newline is refused. */
  lemma RejectsLineFeed()
    ensures !ValidatePassword("Secret_12\n")
  {
    var s := "Secret_12\n";
    ValidatePasswordMeaning(s);
    assert IsLineTerminator(s[9]);
  }

  /** Five characters suffice when three of them lie outside the Basic
      Multilingual Plane: they count as six code units, and they are
      special characters. */
  lemma AcceptsFiveAstralCharacters()
    ensures ValidatePassword("Ab\U{1F600}\U{1F600}\U{1F600}")
  {
    var s := "Ab\U{1F600}\U{1F600}\U{1F600}";
    ValidatePasswordMeaning(s);
    assert Utf16(s[4..]) == EncodeChar(s[4]);
    assert Utf16(s[3..]) == EncodeChar(s[3]) + Utf16(s[4..]);
    assert Utf16(s[2..]) == EncodeChar(s[2]) + Utf16(s[3..]);
    assert Utf16(s[1..]) == EncodeChar(s[1]) + Utf16(s[2..]);
    assert Utf16Length(s) == 8;
    assert IsAsciiUpper(s[0]) && IsSpecial(s[2]);
  }
}
