/**
 * The string handling the option parsers rely on: lower-casing, splitting on
 * a separator, and reading an unsigned 32-bit decimal number the way the
 * standard library's `u32::from_str` does.
 */
module Text {
  import opened Wrappers

  // ---------------------------------------------------------------------------
  // Lower-casing

  /**
   * Lower-cases an ASCII capital and leaves every other character alone.
   * Full Unicode lower-casing differs only on characters outside ASCII, and no
   * such character can turn a string into one of the keywords parsed here.
   */
  function ToLowerChar(c: char): char {
    if 'A' <= c <= 'Z' then (c as int + 32) as char else c
  }

  function ToLower(s: string): (t: string)
    ensures |t| == |s|
  {
    seq(|s|, i requires 0 <= i < |s| => ToLowerChar(s[i]))
  }

  predicate IsLower(s: string) {
    forall i :: 0 <= i < |s| ==> !('A' <= s[i] <= 'Z')
  }

  /** Lower-casing yields a string with no capitals, and changes nothing in such a string. */
  lemma ToLowerNormalizes(s: string)
    ensures IsLower(ToLower(s))
    ensures IsLower(s) <==> ToLower(s) == s
  {
    if IsLower(s) {
      assert forall i :: 0 <= i < |s| ==> ToLower(s)[i] == s[i];
    }
    if ToLower(s) == s {
      assert forall i :: 0 <= i < |s| ==> ToLower(s)[i] == s[i];
    }
  }

  /** Lower-casing twice is lower-casing once. */
  lemma ToLowerIdempotent(s: string)
    ensures ToLower(ToLower(s)) == ToLower(s)
  {
    ToLowerNormalizes(s);
    ToLowerNormalizes(ToLower(s));
  }

  // ---------------------------------------------------------------------------
  // Splitting

  /**
   * The pieces of `s` between occurrences of `sep`, as `str::split` yields
   * them: always at least one piece, and an empty piece on each side of a
   * separator with nothing there.
   */
  function Split(s: string, sep: char): (parts: seq<string>)
    ensures |parts| >= 1
    ensures forall k :: 0 <= k < |parts| ==> sep !in parts[k]
  {
    if s == [] then [""]
    else
      var rest := Split(s[1..], sep);
      if s[0] == sep then [""] + rest
      else [[s[0]] + rest[0]] + rest[1..]
  }

  /** The pieces glued back together with `sep` between them. */
  function Join(parts: seq<string>, sep: char): string
    requires |parts| >= 1
  {
    if |parts| == 1 then parts[0] else parts[0] + [sep] + Join(parts[1..], sep)
  }

  /** Joining the pieces of a split gives back the string. */
  lemma {:induction false} JoinSplit(s: string, sep: char)
    ensures Join(Split(s, sep), sep) == s
  {
    if s != [] {
      var rest := Split(s[1..], sep);
      JoinSplit(s[1..], sep);
      if s[0] == sep {
        assert Split(s, sep)[1..] == rest;
      } else {
        var parts := Split(s, sep);
        if |rest| == 1 {
          assert parts == [[s[0]] + rest[0]];
        } else {
          assert parts[1..] == rest[1..];
          assert Join(rest, sep) == rest[0] + [sep] + Join(rest[1..], sep);
        }
      }
    }
  }

  /** Splitting pieces that hold no separator, once joined, gives back the pieces. */
  lemma {:induction false} SplitJoin(parts: seq<string>, sep: char)
    requires |parts| >= 1
    requires forall k :: 0 <= k < |parts| ==> sep !in parts[k]
    ensures Split(Join(parts, sep), sep) == parts
    decreases |parts|, |parts[0]|
  {
    var head := parts[0];
    if head == [] {
      if |parts| > 1 {
        SplitJoin(parts[1..], sep);
        assert Join(parts, sep) == [sep] + Join(parts[1..], sep);
        assert Join(parts, sep)[1..] == Join(parts[1..], sep);
        assert parts == [""] + parts[1..];
      }
    } else {
      var shorter := [head[1..]] + parts[1..];
      assert forall k :: 0 <= k < |shorter| ==> sep !in shorter[k] by {
        forall k | 0 <= k < |shorter| ensures sep !in shorter[k] {
          if k == 0 {
            assert forall c :: c in head[1..] ==> c in head;
          } else {
            assert shorter[k] == parts[k];
          }
        }
      }
      SplitJoin(shorter, sep);
      JoinFirst(parts, sep);
      JoinFirst(shorter, sep);
      assert Join(parts, sep) == [head[0]] + Join(shorter, sep);
      assert head[0] != sep;
      var s := Join(parts, sep);
      assert s[1..] == Join(shorter, sep);
      assert shorter[0] == head[1..] && shorter[1..] == parts[1..];
      assert [head[0]] + head[1..] == head;
      assert [head] + parts[1..] == parts;
    }
  }

  /** A string without the separator is one piece. */
  lemma SplitWithoutSeparator(s: string, sep: char)
    requires sep !in s
    ensures Split(s, sep) == [s]
  {
    JoinFirst([s], sep);
    SplitJoin([s], sep);
  }

  /** Splitting two strings joined by the separator splits each of them. */
  lemma {:induction false} SplitConcat(s: string, t: string, sep: char)
    ensures Split(s + [sep] + t, sep) == Split(s, sep) + Split(t, sep)
  {
    if s == [] {
      SplitCons(sep, t, sep);
      assert s + [sep] + t == [sep] + t;
    } else {
      var c, u := s[0], s[1..];
      assert s == [c] + u;
      assert s + [sep] + t == [c] + (u + [sep] + t);
      SplitConcat(u, t, sep);
      SplitCons(c, u + [sep] + t, sep);
      SplitCons(c, u, sep);
      ConsPieces(c, Split(u, sep), Split(t, sep), sep);
    }
  }

  /** Adding a first character to the pieces before `right` is adding it to the whole list. */
  lemma ConsPieces(c: char, left: seq<string>, right: seq<string>, sep: char)
    requires |left| >= 1
    ensures var rest := left + right;
      (if c == sep then [""] + rest else [[c] + rest[0]] + rest[1..])
      == (if c == sep then [""] + left else [[c] + left[0]] + left[1..]) + right
  {
    var rest := left + right;
    assert rest[0] == left[0];
    assert rest[1..] == left[1..] + right;
  }

  /** Splitting a string that starts with `c`: a new piece if `c` is the separator, else `c` joins the first piece. */
  lemma SplitCons(c: char, u: string, sep: char)
    ensures Split([c] + u, sep) ==
      if c == sep then [""] + Split(u, sep) else [[c] + Split(u, sep)[0]] + Split(u, sep)[1..]
  {
    assert ([c] + u)[0] == c && ([c] + u)[1..] == u;
  }

  /** A join starts with its first piece and goes on with the rest. */
  lemma JoinFirst(parts: seq<string>, sep: char)
    requires |parts| >= 1
    ensures |parts| == 1 ==> Join(parts, sep) == parts[0]
    ensures |parts| > 1 ==> Join(parts, sep) == parts[0] + [sep] + Join(parts[1..], sep)
  {
  }

  // ---------------------------------------------------------------------------
  // Unsigned decimal numbers

  const U32Max: nat := 0xFFFF_FFFF

  predicate IsDigit(c: char) {
    '0' <= c <= '9'
  }

  predicate AllDigits(s: string) {
    forall i :: 0 <= i < |s| ==> IsDigit(s[i])
  }

  function DigitValue(c: char): nat
    requires IsDigit(c)
  {
    c as int - '0' as int
  }

  function DigitChar(d: nat): (c: char)
    requires d < 10
    ensures IsDigit(c) && DigitValue(c) == d
  {
    ('0' as int + d) as char
  }

  /** The value of a string of decimal digits, most significant first. */
  function DigitsValue(s: string): nat
    requires AllDigits(s)
  {
    if s == [] then 0 else DigitsValue(s[..|s| - 1]) * 10 + DigitValue(s[|s| - 1])
  }

  /**
   * `u32::from_str`: an optional leading '+', then at least one decimal
   * digit, with a value that fits in 32 bits. Anything else, including a
   * '-' sign, surrounding spaces or an empty string, is an error.
   */
  function ParseU32(s: string): (r: Option<nat>)
    ensures r.Some? ==> r.value <= U32Max
    ensures s == [] || s == "+" ==> r.None?
    ensures (exists i :: 0 <= i < |s| && !IsDigit(s[i]) && (i > 0 || s[i] != '+')) ==> r.None?
  {
    var digits := if |s| > 0 && s[0] == '+' then s[1..] else s;
    if digits == [] || !AllDigits(digits) then None
    else
      var v := DigitsValue(digits);
      if v <= U32Max then Some(v) else None
  }

  /** The shortest decimal spelling of `n`. */
  function DecimalString(n: nat): (s: string)
    ensures |s| >= 1 && AllDigits(s)
  {
    if n < 10 then [DigitChar(n)] else DecimalString(n / 10) + [DigitChar(n % 10)]
  }

  lemma {:induction false} DecimalStringValue(n: nat)
    ensures DigitsValue(DecimalString(n)) == n
  {
    var s := DecimalString(n);
    if n >= 10 {
      DecimalStringValue(n / 10);
      assert s[..|s| - 1] == DecimalString(n / 10);
    }
  }

  /** A decimal spelling holds no character but digits. */
  lemma DecimalStringHasNo(n: nat, c: char)
    requires !IsDigit(c)
    ensures c !in DecimalString(n)
  {
  }

  /** Every number that fits in 32 bits reads back from its decimal spelling, with or without a '+'. */
  lemma ParseU32OfDecimal(n: nat)
    requires n <= U32Max
    ensures ParseU32(DecimalString(n)) == Some(n)
    ensures ParseU32("+" + DecimalString(n)) == Some(n)
  {
    DecimalStringValue(n);
    assert ("+" + DecimalString(n))[1..] == DecimalString(n);
  }

  /** A number too wide for 32 bits is rejected. */
  lemma ParseU32Overflow(n: nat)
    requires n > U32Max
    ensures ParseU32(DecimalString(n)) == None
  {
    DecimalStringValue(n);
  }
}
