/**
 * The Python string operations the script relies on: `sub in s`, `s.split(sep)`,
 * `sep.join(pieces)`, the `<` order on `str`, and `int(s)` for decimal text.
 */
module Text {
  import opened Wrappers

  /** Python's `needle in s`: some slice of `s` equals `needle`. */
  predicate Contains(s: string, needle: string)
  {
    exists i :: 0 <= i <= |s| && OccursAt(s, needle, i)
  }

  /** `needle` is the slice of `s` that starts at `i`. */
  predicate OccursAt(s: string, needle: string, i: nat)
  {
    i <= |s| - |needle| && s[i..i + |needle|] == needle
  }

  /** A needle whose first character is absent from `s` does not occur in it. */
  lemma MissingFirstCharacter(s: string, needle: string)
    requires needle != [] && needle[0] !in s
    ensures !Contains(s, needle)
  {
    forall i | 0 <= i <= |s|
      ensures !OccursAt(s, needle, i)
    {
      if i <= |s| - |needle| {
        assert s[i..i + |needle|][0] == s[i];
      }
    }
  }

  // ---------------------------------------------------------------------------
  // str.split(sep) and str.join for a one-character separator
  // ---------------------------------------------------------------------------

  /**
   * Python's `s.split(sep)`: the pieces between occurrences of `sep`. There is
   * always at least one piece.
   */
  function Split(s: string, sep: char): (pieces: seq<string>)
    ensures |pieces| >= 1
  {
    if s == [] then [""]
    else
      var rest := Split(s[1..], sep);
      if s[0] == sep then [""] + rest
      else [[s[0]] + rest[0]] + rest[1..]
  }

  /**
   * There is one piece exactly when `s` holds no separator, no piece holds
   * one, and the first piece is the text before the first separator (all of
   * `s` when there is none).
   */
  lemma {:induction false} SplitSound(s: string, sep: char)
    ensures |Split(s, sep)| == 1 <==> sep !in s
    ensures forall p :: p in Split(s, sep) ==> sep !in p
    ensures Split(s, sep)[0] <= s
    ensures |Split(s, sep)[0]| < |s| <==> sep in s
    ensures |Split(s, sep)[0]| < |s| ==> s[|Split(s, sep)[0]|] == sep
  {
    if s != [] {
      SplitSound(s[1..], sep);
      var rest := Split(s[1..], sep);
      assert s == [s[0]] + s[1..];
      assert sep in s <==> s[0] == sep || sep in s[1..];
      if s[0] != sep {
        var first := [s[0]] + rest[0];
        assert Split(s, sep) == [first] + rest[1..];
        assert sep !in first;
        assert forall p :: p in rest[1..] ==> p in rest;
      }
    }
  }

  /** Python's `sep.join(pieces)` for a non-empty list of pieces. */
  function Join(pieces: seq<string>, sep: char): (s: string)
    requires |pieces| >= 1
  {
    if |pieces| == 1 then pieces[0] else pieces[0] + [sep] + Join(pieces[1..], sep)
  }

  /** Joining the pieces of a split gives back the text. */
  lemma {:induction false} JoinSplit(s: string, sep: char)
    ensures Join(Split(s, sep), sep) == s
  {
    if s != [] {
      JoinSplit(s[1..], sep);
      var rest := Split(s[1..], sep);
      if s[0] != sep {
        if |rest| == 1 {
          assert Join(Split(s, sep), sep) == [s[0]] + rest[0];
        } else {
          assert Split(s, sep)[1..] == rest[1..];
          assert Join(Split(s, sep), sep) == [s[0]] + rest[0] + [sep] + Join(rest[1..], sep);
        }
      }
    }
  }

  /** A text free of the separator splits into itself alone. */
  lemma {:induction false} SplitWithout(s: string, sep: char)
    requires sep !in s
    ensures Split(s, sep) == [s]
  {
    if s != [] {
      SplitWithout(s[1..], sep);
      assert s == [s[0]] + s[1..];
    }
  }

  /** Splitting `a + sep + b` where `a` is free of the separator. */
  lemma {:induction false} SplitAfterPiece(a: string, sep: char, b: string)
    requires sep !in a
    ensures Split(a + [sep] + b, sep) == [a] + Split(b, sep)
  {
    var s := a + [sep] + b;
    if a == [] {
      assert s[0] == sep && s[1..] == b;
    } else {
      assert s[0] == a[0] != sep;
      assert s[1..] == a[1..] + [sep] + b;
      SplitAfterPiece(a[1..], sep, b);
      var rest := Split(s[1..], sep);
      assert rest == [a[1..]] + Split(b, sep);
      assert Split(s, sep) == [[a[0]] + rest[0]] + rest[1..];
      assert [a[0]] + a[1..] == a;
    }
  }

  /** Splitting the join of separator-free pieces gives back the pieces. */
  lemma {:induction false} SplitJoin(pieces: seq<string>, sep: char)
    requires |pieces| >= 1
    requires forall p :: p in pieces ==> sep !in p
    ensures Split(Join(pieces, sep), sep) == pieces
  {
    if |pieces| == 1 {
      SplitWithout(pieces[0], sep);
    } else {
      SplitJoin(pieces[1..], sep);
      SplitAfterPiece(pieces[0], sep, Join(pieces[1..], sep));
    }
  }

  // ---------------------------------------------------------------------------
  // Python's order on str
  // ---------------------------------------------------------------------------

  /**
   * Python's `a < b` on `str`: code point by code point, and a proper prefix
   * comes first. (Dafny's own `<` on sequences means "proper prefix" only.)
   */
  predicate Less(a: string, b: string)
  {
    if a == [] then b != []
    else if b == [] then false
    else if a[0] != b[0] then a[0] < b[0]
    else Less(a[1..], b[1..])
  }

  /** The textbook definition of lexicographic order, stated by index. */
  ghost predicate LessAt(a: string, b: string)
  {
    (|a| < |b| && a == b[..|a|]) ||
    exists i :: 0 <= i < |a| && i < |b| && a[..i] == b[..i] && a[i] < b[i]
  }

  lemma {:induction false} LessIsLessAt(a: string, b: string)
    ensures Less(a, b) <==> LessAt(a, b)
  {
    if Less(a, b) {
      LessGivesLessAt(a, b);
    }
    if LessAt(a, b) {
      LessAtGivesLess(a, b);
    }
  }

  lemma {:induction false} LessGivesLessAt(a: string, b: string)
    requires Less(a, b)
    ensures LessAt(a, b)
  {
    if a == [] {
      assert a == b[..0];
    } else if a[0] != b[0] {
      assert a[..0] == b[..0];
    } else {
      LessGivesLessAt(a[1..], b[1..]);
      if |a[1..]| < |b[1..]| && a[1..] == b[1..][..|a[1..]|] {
        assert a == [a[0]] + a[1..] && b[..|a|] == [b[0]] + b[1..][..|a[1..]|];
      } else {
        var i :| 0 <= i < |a[1..]| && i < |b[1..]| && a[1..][..i] == b[1..][..i] && a[1..][i] < b[1..][i];
        assert a[..i + 1] == [a[0]] + a[1..][..i];
        assert b[..i + 1] == [b[0]] + b[1..][..i];
        assert a[i + 1] < b[i + 1];
      }
    }
  }

  lemma {:induction false} LessAtGivesLess(a: string, b: string)
    requires LessAt(a, b)
    ensures Less(a, b)
  {
    if a != [] {
      assert b != [];
      if |a| < |b| && a == b[..|a|] {
        assert a[0] == b[0];
        assert a[1..] == b[1..][..|a[1..]|];
        LessAtGivesLess(a[1..], b[1..]);
      } else {
        var i :| 0 <= i < |a| && i < |b| && a[..i] == b[..i] && a[i] < b[i];
        if i != 0 {
          assert a[0] == a[..i][0] == b[..i][0] == b[0];
          assert a[1..][..i - 1] == a[..i][1..];
          assert b[1..][..i - 1] == b[..i][1..];
          assert a[1..][i - 1] < b[1..][i - 1];
          LessAtGivesLess(a[1..], b[1..]);
        }
      }
    }
  }

  lemma {:induction false} LessIrreflexive(a: string)
    ensures !Less(a, a)
  {
    if a != [] {
      LessIrreflexive(a[1..]);
    }
  }

  lemma {:induction false} LessTransitive(a: string, b: string, c: string)
    requires Less(a, b) && Less(b, c)
    ensures Less(a, c)
  {
    if a != [] && b != [] && c != [] && a[0] == b[0] && b[0] == c[0] {
      LessTransitive(a[1..], b[1..], c[1..]);
    }
  }

  /** Any two different strings are ordered one way or the other, never both. */
  lemma {:induction false} LessTotal(a: string, b: string)
    ensures a == b || Less(a, b) || Less(b, a)
    ensures !(Less(a, b) && Less(b, a))
  {
    if a != [] && b != [] && a[0] == b[0] {
      LessTotal(a[1..], b[1..]);
      assert a == [a[0]] + a[1..];
      assert b == [b[0]] + b[1..];
    }
  }

  // ---------------------------------------------------------------------------
  // int(s) for decimal text
  // ---------------------------------------------------------------------------

  predicate IsDigit(c: char)
  {
    '0' <= c <= '9'
  }

  predicate AllDigits(s: string)
  {
    forall i :: 0 <= i < |s| ==> IsDigit(s[i])
  }

  /**
   * The value of a run of decimal digits, most significant first;
   * `None` when some character is not a digit.
   */
  function Digits(s: string): (r: Option<nat>)
  {
    if s == [] then Some(0)
    else match Digits(s[..|s| - 1])
      case None => None
      case Some(v) =>
        if IsDigit(s[|s| - 1]) then Some(10 * v + (s[|s| - 1] as int - '0' as int)) else None
  }

  /** `Digits` fails exactly on the texts holding a character that is not a digit. */
  lemma {:induction false} DigitsDefined(s: string)
    ensures Digits(s).Some? <==> AllDigits(s)
  {
    if s != [] {
      var init := s[..|s| - 1];
      DigitsDefined(init);
      assert forall i :: 0 <= i < |init| ==> init[i] == s[i];
    }
  }

  /**
   * The signed-decimal parse that stands in for Python's `int(s)`: the value
   * of an optionally signed run of ASCII decimal digits, `None` for any other
   * text. Unlike `int()` it takes no whitespace, `_` or non-ASCII digits, and
   * has no 4300-digit limit.
   */
  function ParseInt(s: string): (r: Option<int>)
  {
    if s == [] then None
    else if |s| > 1 && (s[0] == '-' || s[0] == '+') then
      match Digits(s[1..])
        case None => None
        case Some(magnitude) => Some(if s[0] == '-' then -(magnitude as int) else magnitude as int)
    else
      match Digits(s)
        case None => None
        case Some(n) => Some(n)
  }

  /** The signed-decimal parse accepts exactly a non-empty ASCII digit run, optionally after one sign. */
  lemma ParseIntDefined(s: string)
    ensures ParseInt(s).Some? <==>
      (s != [] && AllDigits(s)) || (|s| > 1 && (s[0] == '-' || s[0] == '+') && AllDigits(s[1..]))
  {
    DigitsDefined(s);
    if |s| > 1 {
      DigitsDefined(s[1..]);
      if s[0] == '-' || s[0] == '+' {
        assert !IsDigit(s[0]);
      }
    }
  }

  /** Decimal text of a natural number, without leading zeros. */
  function NatText(n: nat): (s: string)
    ensures |s| >= 1 && AllDigits(s)
    ensures |s| > 1 ==> s[0] != '0'
  {
    var last := [('0' as int + n % 10) as char];
    if n < 10 then last else NatText(n / 10) + last
  }

  /** Python's `str(n)` for an integer. */
  function IntText(n: int): (s: string)
  {
    if n < 0 then "-" + NatText(-n) else NatText(n)
  }

  lemma {:induction false} DigitsOfNatText(n: nat)
    ensures Digits(NatText(n)) == Some(n)
  {
    if n >= 10 {
      DigitsOfNatText(n / 10);
      var s := NatText(n);
      assert s[..|s| - 1] == NatText(n / 10);
    }
  }

  /** The signed-decimal parse inverts the decimal text of every integer. */
  lemma ParseIntText(n: int)
    ensures ParseInt(IntText(n)) == Some(n)
  {
    if n < 0 {
      DigitsOfNatText(-n);
      assert IntText(n)[1..] == NatText(-n);
    } else {
      DigitsOfNatText(n);
    }
  }

  /** Texts the parse rejects and the sign and leading zeros it accepts, as `int()` does for these. */
  lemma ParseIntExamples()
    ensures ParseInt("") == None
    ensures ParseInt("-") == None
    ensures ParseInt("12.5") == None
    ensures ParseInt("chr1") == None
    ensures ParseInt("+007") == Some(7)
    ensures ParseInt("-42") == Some(-42)
  {
    assert "12.5"[..3] == "12." && "12."[..2] == "12" && "12"[..1] == "1" && "1"[..0] == "";
    assert "chr1"[..3] == "chr" && "chr"[..2] == "ch" && "ch"[..1] == "c" && "c"[..0] == "";
    assert "+007"[1..] == "007";
    assert "007"[..2] == "00" && "00"[..1] == "0" && "0"[..0] == "";
    assert "-42"[1..] == "42";
    assert "42"[..1] == "4" && "4"[..0] == "";
  }
}
