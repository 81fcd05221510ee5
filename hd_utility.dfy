/**
 * The general helpers of the HD library: `HD.Misc.switching`,
 * `HD.Number.fillZero`, the string helpers `reverse`, `removePrefix` and
 * `validateEmail`, the array helpers `inArray`, `indexOf`, `addByVal`,
 * `removeByVal` and `rotate`, and `HD.Object.partialMatch`.
 */
module HdUtility {
  import opened Wrappers
  import opened JsArray

  // ---------------------------------------------------------------------
  // HD.Misc.switching
  // ---------------------------------------------------------------------

  /**
   * `switching(variable, relations, defaultValue)`: walk the keys of
   * `relations` and return the value of the key equal to `variable`, or the
   * default when none is. Keys of a plain object are strings, so only a
   * string `variable` can match.
   */
  method Switching<V>(variable: string, relations: map<string, V>, defaultValue: V) returns (r: V)
    ensures variable in relations ==> r == relations[variable]
    ensures variable !in relations ==> r == defaultValue
  {
    var keys := relations.Keys;
    while keys != {}
      invariant keys <= relations.Keys
      invariant variable in relations ==> variable in keys
      decreases keys
    {
      var index :| index in keys;
      if variable == index {
        return relations[index];
      }
      keys := keys - {index};
    }
    return defaultValue;
  }

  // ---------------------------------------------------------------------
  // HD.Number.fillZero
  // ---------------------------------------------------------------------

  /** The character of a decimal digit. */
  function Digit(d: nat): (c: char)
    requires d < 10
    ensures '0' <= c <= '9' && c as int - '0' as int == d
  {
    ('0' as int + d) as char
  }

  /** `n.toString()` for an integer: its decimal digits, with a leading '-' when negative. */
  function DecimalText(n: int): (s: string)
    ensures |s| > 0
    ensures n >= 0 ==> forall i :: 0 <= i < |s| ==> '0' <= s[i] <= '9'
    ensures n < 0 <==> s[0] == '-'
    decreases if n < 0 then 1 - n else n
  {
    if n < 0 then "-" + DecimalText(-n)
    else if n < 10 then [Digit(n)]
    else DecimalText(n / 10) + [Digit(n % 10)]
  }

  /** The number a string of decimal digits denotes. */
  function DigitsValue(s: string): nat
    requires forall i :: 0 <= i < |s| ==> '0' <= s[i] <= '9'
  {
    if |s| == 0 then 0
    else 10 * DigitsValue(s[..|s| - 1]) + (s[|s| - 1] as int - '0' as int)
  }

  /** The digits of a non-negative number read back as that number. */
  lemma {:induction false} DecimalTextValue(n: nat)
    ensures DigitsValue(DecimalText(n)) == n
    decreases n
  {
    if n >= 10 {
      DecimalTextValue(n / 10);
      var t := DecimalText(n);
      assert t[..|t| - 1] == DecimalText(n / 10);
    }
  }

  /** A string of zeros is worth nothing. */
  lemma {:induction false} ZerosValue(z: nat)
    ensures DigitsValue(Zeros(z)) == 0
    decreases z
  {
    if z > 0 {
      assert Zeros(z)[..z - 1] == Zeros(z - 1);
      ZerosValue(z - 1);
    }
  }

  /** Leading zeros do not change the value of a digit string. */
  lemma {:induction false} LeadingZerosValue(z: nat, s: string)
    requires forall i :: 0 <= i < |s| ==> '0' <= s[i] <= '9'
    ensures forall i :: 0 <= i < |Zeros(z) + s| ==> '0' <= (Zeros(z) + s)[i] <= '9'
    ensures DigitsValue(Zeros(z) + s) == DigitsValue(s)
    decreases |s|
  {
    if |s| == 0 {
      assert Zeros(z) + s == Zeros(z);
      ZerosValue(z);
    } else {
      var t := Zeros(z) + s;
      assert t[..|t| - 1] == Zeros(z) + s[..|s| - 1];
      LeadingZerosValue(z, s[..|s| - 1]);
    }
  }

  /** `z` zero characters. */
  function Zeros(z: nat): (r: string)
    ensures |r| == z && forall i :: 0 <= i < z ==> r[i] == '0'
  {
    if z == 0 then "" else Zeros(z - 1) + "0"
  }

  /**
   * `fillZero(num, len)`: pad `num.toString()` on the left with zeros up to
   * `len` characters; a longer text is returned whole. A negative number
   * gets its zeros in front of the '-'.
   */
  method FillZero(num: int, len: int) returns (r: string)
    ensures var text := DecimalText(num);
      && |r| == (if len > |text| then len else |text|)
      && r[|r| - |text|..] == text
      && forall i :: 0 <= i < |r| - |text| ==> r[i] == '0'
  {
    var numStr := "";
    var originalNumStr := DecimalText(num);
    var n := |originalNumStr|;
    while n < len
      invariant |originalNumStr| <= n && (n <= len || n == |originalNumStr|)
      invariant numStr == Zeros(n - |originalNumStr|)
    {
      numStr := numStr + "0";
      n := n + 1;
    }
    r := numStr + originalNumStr;
    assert r[|r| - |originalNumStr|..] == originalNumStr;
  }

  /** A padded non-negative number still reads as that number. */
  lemma FillZeroKeepsValue(num: nat, len: int)
    ensures var text := DecimalText(num);
      var z := if len > |text| then len - |text| else 0;
      DigitsValue(Zeros(z) + text) == num
  {
    var text := DecimalText(num);
    var z := if len > |text| then len - |text| else 0;
    LeadingZerosValue(z, text);
    DecimalTextValue(num);
  }

  // ---------------------------------------------------------------------
  // HD.String.reverse
  // ---------------------------------------------------------------------

  /** `str.split('').reverse().join('')`: the characters in the opposite order. */
  function Reverse(s: string): (r: string)
    ensures |r| == |s|
    ensures forall i :: 0 <= i < |s| ==> r[i] == s[|s| - 1 - i]
  {
    if |s| == 0 then "" else [s[|s| - 1]] + Reverse(s[..|s| - 1])
  }

  /** Reversing twice gives the string back. */
  lemma ReverseInvolution(s: string)
    ensures Reverse(Reverse(s)) == s
  {
  }

  /** Reversal turns a concatenation around. */
  lemma ReverseAppend(a: string, b: string)
    ensures Reverse(a + b) == Reverse(b) + Reverse(a)
  {
  }

  // ---------------------------------------------------------------------
  // HD.String.removePrefix
  // ---------------------------------------------------------------------

  /** `sep` occurs in `s` starting at position `j`. */
  predicate OccursAt(s: string, sep: string, j: int) {
    0 <= j && j + |sep| <= |s| && s[j..j + |sep|] == sep
  }

  /** The first position from `from` on at which `sep` occurs in `s`. */
  function FirstOccurrenceFrom(s: string, sep: string, from: nat): (r: Option<nat>)
    ensures r.Some? ==> from <= r.value && OccursAt(s, sep, r.value)
    ensures r.Some? ==> forall j :: from <= j < r.value ==> !OccursAt(s, sep, j)
    ensures r.None? ==> forall j :: from <= j ==> !OccursAt(s, sep, j)
    decreases |s| - from
  {
    if from + |sep| > |s| then None
    else if OccursAt(s, sep, from) then Some(from)
    else FirstOccurrenceFrom(s, sep, from + 1)
  }

  /** The first position at which `sep` occurs in `s`. */
  function FirstOccurrence(s: string, sep: string): (r: Option<nat>)
    ensures r.Some? ==> OccursAt(s, sep, r.value) && forall j :: 0 <= j < r.value ==> !OccursAt(s, sep, j)
    ensures r.None? ==> forall j :: !OccursAt(s, sep, j)
  {
    FirstOccurrenceFrom(s, sep, 0)
  }

  /** `s.split(sep)` for a non-empty separator: the pieces between its occurrences, left to right. */
  function Split(s: string, sep: string): (r: seq<string>)
    requires |sep| > 0
    ensures |r| > 0
    decreases |s|
  {
    match FirstOccurrence(s, sep)
    case None => [s]
    case Some(i) => [s[..i]] + Split(s[i + |sep|..], sep)
  }

  /** `parts.join(sep)`: begins with the first piece. */
  function Join(parts: seq<string>, sep: string): (r: string)
    ensures |parts| > 0 ==> parts[0] <= r
  {
    if |parts| == 0 then ""
    else if |parts| == 1 then parts[0]
    else parts[0] + sep + Join(parts[1..], sep)
  }

  /** `s.split('')`: one piece per character. */
  function Chars(s: string): (r: seq<string>)
    ensures |r| == |s| && forall i :: 0 <= i < |s| ==> r[i] == [s[i]]
  {
    seq(|s|, i requires 0 <= i < |s| => [s[i]])
  }

  /** Splitting and joining with the same non-empty separator gives the string back. */
  lemma {:induction false} SplitJoin(s: string, sep: string)
    requires |sep| > 0
    ensures Join(Split(s, sep), sep) == s
    decreases |s|
  {
    match FirstOccurrence(s, sep)
    case None =>
    case Some(i) =>
      var rest := s[i + |sep|..];
      SplitJoin(rest, sep);
      assert s == s[..i] + sep + rest;
  }

  /** Joining single characters with no separator concatenates them. */
  lemma {:induction false} JoinChars(s: string)
    ensures Join(Chars(s), "") == s
    decreases |s|
  {
    if |s| > 1 {
      assert Chars(s)[1..] == Chars(s[1..]);
      JoinChars(s[1..]);
      assert s == [s[0]] + s[1..];
    }
  }

  /**
   * `removePrefix(str, separator)`: split, drop the first piece, join the
   * rest with the same separator.
   */
  function RemovePrefix(s: string, sep: string): (r: string)
    ensures |r| <= |s| && r == s[|s| - |r|..]
  {
    if |sep| == 0 then
      var pieces := Chars(s);
      if |pieces| == 0 then ""
      else
        assert pieces[1..] == Chars(s[1..]);
        JoinChars(s[1..]);
        Join(pieces[1..], sep)
    else
      var pieces := Split(s, sep);
      RemovePrefixSplit(s, sep);
      Join(pieces[1..], sep)
  }

  /** With a non-empty separator, what is left is the text after its first occurrence, or "" without one. */
  lemma {:induction false} RemovePrefixSplit(s: string, sep: string)
    requires |sep| > 0
    ensures var r := Join(Split(s, sep)[1..], sep);
      match FirstOccurrence(s, sep)
      case None => r == ""
      case Some(i) => r == s[i + |sep|..]
  {
    match FirstOccurrence(s, sep)
    case None =>
    case Some(i) =>
      var rest := s[i + |sep|..];
      assert Split(s, sep)[1..] == Split(rest, sep);
      SplitJoin(rest, sep);
  }

  /** The text after the first occurrence of a non-empty separator, or "" without one. */
  lemma RemovePrefixAfterSeparator(s: string, sep: string)
    requires |sep| > 0
    ensures FirstOccurrence(s, sep).Some? ==>
      RemovePrefix(s, sep) == s[FirstOccurrence(s, sep).value + |sep|..]
    ensures FirstOccurrence(s, sep).None? ==> RemovePrefix(s, sep) == ""
  {
    RemovePrefixSplit(s, sep);
  }

  /** With the empty separator the first character is dropped. */
  lemma RemovePrefixEmptySeparator(s: string)
    ensures RemovePrefix(s, "") == if |s| == 0 then "" else s[1..]
  {
    if |s| > 0 {
      assert Chars(s)[1..] == Chars(s[1..]);
      JoinChars(s[1..]);
    }
  }

  /** The prefix, the separator and the returned rest make up the whole string. */
  lemma RemovePrefixRejoins(s: string, sep: string)
    requires |sep| > 0 && FirstOccurrence(s, sep).Some?
    ensures s == s[..FirstOccurrence(s, sep).value] + sep + RemovePrefix(s, sep)
  {
    var i := FirstOccurrence(s, sep).value;
    RemovePrefixAfterSeparator(s, sep);
    assert s == s[..i] + s[i..i + |sep|] + s[i + |sep|..];
  }

  // ---------------------------------------------------------------------
  // HD.String.validateEmail
  // ---------------------------------------------------------------------

  /** The class `[a-z0-9._-]` of the address pattern. */
  predicate LocalChar(c: char) {
    ('a' <= c <= 'z') || ('0' <= c <= '9') || c == '.' || c == '_' || c == '-'
  }

  predicate Lower(c: char) {
    'a' <= c <= 'z'
  }

  /** Every character of `s[lo..hi]` is in the class. */
  predicate AllLocal(s: string, lo: nat, hi: nat)
    requires lo <= hi <= |s|
  {
    forall k :: lo <= k < hi ==> LocalChar(s[k])
  }

  predicate AllLower(s: string, lo: nat, hi: nat)
    requires lo <= hi <= |s|
  {
    forall k :: lo <= k < hi ==> Lower(s[k])
  }

  /**
   * The shape `^[a-z0-9._-]+@[a-z0-9._-]+\.[a-z]+$` with the '@' at `at` and
   * the final '.' at `dot`.
   */
  predicate EmailShape(s: string, at: nat, dot: nat) {
    && 0 < at && at + 1 < dot && dot + 1 < |s|
    && AllLocal(s, 0, at) && s[at] == '@'
    && AllLocal(s, at + 1, dot) && s[dot] == '.'
    && AllLower(s, dot + 1, |s|)
  }

  /** What the regular expression accepts. */
  ghost predicate MatchesEmailPattern(s: string) {
    exists at: nat, dot: nat :: EmailShape(s, at, dot)
  }

  /** The last position holding `c`, or -1. */
  function LastIndexOf(s: string, c: char): (r: int)
    ensures -1 <= r < |s|
    ensures r >= 0 ==> s[r] == c && forall j :: r < j < |s| ==> s[j] != c
    ensures r == -1 ==> c !in s
  {
    if |s| == 0 then -1
    else if s[|s| - 1] == c then |s| - 1
    else LastIndexOf(s[..|s| - 1], c)
  }

  /** `validateEmail(email)`: the regular-expression test, decided at the first '@' and the last '.'. */
  function ValidateEmail(email: string): (r: bool)
    ensures r ==>
      IndexOf(email, '@') > 0 && LastIndexOf(email, '.') > 0
        && EmailShape(email, IndexOf(email, '@'), LastIndexOf(email, '.'))
  {
    var at := IndexOf(email, '@');
    var dot := LastIndexOf(email, '.');
    at > 0 && at + 1 < dot && dot + 1 < |email|
      && AllLocal(email, 0, at) && AllLocal(email, at + 1, dot) && AllLower(email, dot + 1, |email|)
  }

  /** The decision agrees with the pattern on every string. */
  lemma ValidateEmailMatchesPattern(email: string)
    ensures ValidateEmail(email) <==> MatchesEmailPattern(email)
  {
    if MatchesEmailPattern(email) {
      var at: nat, dot: nat :| EmailShape(email, at, dot);
      // The '@' is the first one: the class before it has no '@'.
      assert !LocalChar('@');
      assert IndexOf(email, '@') == at by {
        assert forall k :: 0 <= k < at ==> email[k] != '@' by {
          forall k | 0 <= k < at ensures email[k] != '@' {
            assert LocalChar(email[k]);
          }
        }
      }
      // The '.' is the last one: the lower-case tail has no '.'.
      assert LastIndexOf(email, '.') == dot by {
        forall k | dot < k < |email| ensures email[k] != '.' {
          assert Lower(email[k]);
        }
      }
    }
  }

  /** Upper-case letters are refused: the pattern carries no case-insensitive flag. */
  lemma ValidateEmailRejectsUpperCase()
    ensures !ValidateEmail("A@b.cd")
  {
    var e := "A@b.cd";
    assert e[0] == 'A' && e[1] == '@';
    assert IndexOf(e, '@') == 1;
    assert !AllLocal(e, 0, 1);
  }

  /** The same address in lower case is accepted. */
  lemma ValidateEmailAcceptsLowerCase()
    ensures ValidateEmail("a@b.cd")
  {
    var e := "a@b.cd";
    assert e[0] == 'a' && e[1] == '@' && e[2] == 'b' && e[3] == '.' && e[4] == 'c' && e[5] == 'd';
    assert IndexOf(e, '@') == 1;
    assert LastIndexOf(e, '.') == 3;
    assert AllLocal(e, 0, 1) && AllLocal(e, 2, 3) && AllLower(e, 4, 6);
  }

  // ---------------------------------------------------------------------
  // HD.Array
  // ---------------------------------------------------------------------

  /**
   * `inArray(needle, haystack)`: whether the array holds the value; a
   * missing (`null`/`undefined`) array holds nothing, an empty one is
   * searched like any other.
   */
  function InArray<T(==)>(needle: T, haystack: Option<seq<T>>): (r: bool)
    ensures r <==> haystack.Some? && exists i :: 0 <= i < |haystack.value| && haystack.value[i] == needle
  {
    haystack.Some? && IndexOf(haystack.value, needle) > -1
  }

  /** `indexOf(val, arr, comparer)`: the first index whose element the comparer accepts, or -1. */
  method IndexOfBy<T>(val: T, arr: seq<T>, comparer: (T, T) -> bool) returns (r: int)
    ensures -1 <= r < |arr|
    ensures r >= 0 ==> comparer(arr[r], val) && forall j :: 0 <= j < r ==> !comparer(arr[j], val)
    ensures r == -1 ==> forall j :: 0 <= j < |arr| ==> !comparer(arr[j], val)
  {
    var i := 0;
    while i < |arr|
      invariant 0 <= i <= |arr|
      invariant forall j :: 0 <= j < i ==> !comparer(arr[j], val)
    {
      if comparer(arr[i], val) {
        return i;
      }
      i := i + 1;
    }
    return -1;
  }

  /** `addByVal(arr, val)`: push the value unless present; the same array comes back. */
  method AddByVal<T(==)>(arr: ArrayRef<T>, val: T) returns (r: ArrayRef<T>)
    modifies arr
    ensures r == arr && arr.items == PushAbsent(old(arr.items), val)
  {
    if IndexOf(arr.items, val) == -1 {
      arr.items := arr.items + [val];
    }
    return arr;
  }

  /**
   * `removeByVal(arr, val)` as written: `arr.slice(index, 1)` copies the
   * elements from `index` up to position 1 (one element at index 0, none
   * after it) and the copy is discarded, so the array is returned unchanged
   * and still holds the value.
   */
  method RemoveByVal<T(==)>(arr: ArrayRef<T>, val: T) returns (r: ArrayRef<T>)
    ensures r == arr
    ensures r.items == old(arr.items)
  {
    var index := IndexOf(arr.items, val);
    if index > -1 {
      var discarded := arr.items[index..if index < 1 then 1 else index];
    }
    return arr;
  }

  /** `removeByVal(arr, val)` as documented: `splice` out the first occurrence. */
  method RemoveByValSpliced<T(==)>(arr: ArrayRef<T>, val: T) returns (r: ArrayRef<T>)
    modifies arr
    ensures r == arr && arr.items == RemoveFirst(old(arr.items), val)
  {
    var index := IndexOf(arr.items, val);
    if index > -1 {
      arr.items := arr.items[..index] + arr.items[index + 1..];
    }
    return arr;
  }

  /**
   * What `rotate(arr)` builds: `rotated[i][j] = arr[j][i]` for every column
   * `i` of the first row and every row `j`; a cell a shorter row lacks is
   * `undefined` (None). An empty array has no first row and throws.
   */
  function Rotated<T>(arr: seq<seq<T>>): (r: Option<seq<seq<Option<T>>>>)
    ensures r.Some? <==> |arr| > 0
    ensures r.Some? ==> |r.value| == |arr[0]| && forall i :: 0 <= i < |r.value| ==> |r.value[i]| == |arr|
  {
    if |arr| == 0 then None
    else Some(seq(|arr[0]|, i requires 0 <= i < |arr[0]| =>
                seq(|arr|, j requires 0 <= j < |arr| => if i < |arr[j]| then Some(arr[j][i]) else None)))
  }

  /** `rotate(arr)`: the nested loops fill the result row by row. */
  method Rotate<T>(arr: seq<seq<T>>) returns (r: Option<seq<seq<Option<T>>>>)
    ensures r == Rotated(arr)
  {
    if |arr| == 0 {
      return None;
    }
    var rotated: seq<seq<Option<T>>> := [];
    var i := 0;
    while i < |arr[0]|
      invariant 0 <= i <= |arr[0]| && |rotated| == i
      invariant forall a :: 0 <= a < i ==> rotated[a] == Rotated(arr).value[a]
    {
      var row: seq<Option<T>> := [];
      var j := 0;
      while j < |arr|
        invariant 0 <= j <= |arr| && |row| == j
        invariant forall b :: 0 <= b < j ==> row[b] == Rotated(arr).value[i][b]
      {
        row := row + [if i < |arr[j]| then Some(arr[j][i]) else None];
        j := j + 1;
      }
      assert row == Rotated(arr).value[i];
      rotated := rotated + [row];
      i := i + 1;
    }
    assert rotated == Rotated(arr).value;
    return Some(rotated);
  }

  /** All rows have the length of the first. */
  predicate Rectangular<T>(arr: seq<seq<T>>) {
    forall j :: 0 <= j < |arr| ==> |arr[j]| == |arr[0]|
  }

  /** The values of a grid in which every cell is defined. */
  function Present<T>(m: seq<seq<Option<T>>>): (r: seq<seq<T>>)
    requires forall i, j :: 0 <= i < |m| && 0 <= j < |m[i]| ==> m[i][j].Some?
    ensures |r| == |m| && forall i :: 0 <= i < |m| ==> |r[i]| == |m[i]|
    ensures forall i, j :: 0 <= i < |m| && 0 <= j < |m[i]| ==> r[i][j] == m[i][j].value
  {
    seq(|m|, i requires 0 <= i < |m| => seq(|m[i]|, j requires 0 <= j < |m[i]| => m[i][j].value))
  }

  /** A rectangular grid is transposed: every cell is defined, and rotating again gives it back. */
  lemma RotateRectangularTwice<T>(arr: seq<seq<T>>)
    requires |arr| > 0 && |arr[0]| > 0 && Rectangular(arr)
    ensures var m := Rotated(arr).value;
      && |m| == |arr[0]| && (forall i :: 0 <= i < |m| ==> |m[i]| == |arr|)
      && (forall i, j :: 0 <= i < |m| && 0 <= j < |arr| ==> m[i][j] == Some(arr[j][i]))
      && Rotated(Present(m)) == Some(Defined(arr))
  {
    var m: seq<seq<Option<T>>> := Rotated(arr).value;
    var p := Present(m);
    var back := Rotated(p).value;
    var want := Defined(arr);
    assert |back| == |p[0]| == |arr| == |want|;
    forall j | 0 <= j < |arr|
      ensures back[j] == want[j]
    {
      assert |back[j]| == |p| == |arr[0]| == |arr[j]| == |want[j]|;
      forall i | 0 <= i < |arr[j]|
        ensures back[j][i] == want[j][i]
      {
        assert |p[i]| == |arr|;
        assert back[j][i] == Some(p[i][j]);
        assert p[i][j] == m[i][j].value == arr[j][i];
      }
      assert back[j] == want[j];
    }
    assert back == want;
  }

  /** Every cell of a grid, wrapped as defined. */
  function Defined<T>(arr: seq<seq<T>>): (r: seq<seq<Option<T>>>)
    ensures |r| == |arr| && forall j :: 0 <= j < |arr| ==> |r[j]| == |arr[j]|
    ensures forall j, i :: 0 <= j < |arr| && 0 <= i < |arr[j]| ==> r[j][i] == Some(arr[j][i])
  {
    seq(|arr|, j requires 0 <= j < |arr| => seq(|arr[j]|, i requires 0 <= i < |arr[j]| => Some(arr[j][i])))
  }

  /** A row shorter than the first leaves `undefined` cells. */
  lemma RotateJaggedRow()
    ensures Rotated([[1, 2], [3]]) == Some([[Some(1), Some(3)], [Some(2), None]])
  {
    var arr := [[1, 2], [3]];
    var r := Rotated(arr).value;
    assert |r| == 2 && |r[0]| == 2 && |r[1]| == 2;
    assert r[0][0] == Some(1) && r[0][1] == Some(3);
    assert r[1][0] == Some(2) && r[1][1] == None;
    assert r[0] == [Some(1), Some(3)];
    assert r[1] == [Some(2), None];
    assert r == [[Some(1), Some(3)], [Some(2), None]];
  }

  // ---------------------------------------------------------------------
  // HD.Object.partialMatch
  // ---------------------------------------------------------------------

  /** Every key present in both objects holds the same value in each. */
  predicate AgreeOnShared<V(==)>(partial: map<string, V>, full: map<string, V>) {
    forall k :: k in full && k in partial ==> partial[k] == full[k]
  }

  /**
   * `partialMatch(partialObject, fullObject)`: walk the keys of the full
   * object; a key the partial object defines with a different value fails.
   */
  method PartialMatch<V(==)>(partial: map<string, V>, full: map<string, V>) returns (r: bool)
    ensures r <==> forall k :: k in full && k in partial ==> partial[k] == full[k]
  {
    var properties := full.Keys;
    while properties != {}
      invariant properties <= full.Keys
      invariant forall k :: k in full && k !in properties && k in partial ==> partial[k] == full[k]
      decreases properties
    {
      var key :| key in properties;
      if key in partial && partial[key] != full[key] {
        return false;
      }
      properties := properties - {key};
    }
    return true;
  }

  /** Only shared keys are compared, so the test does not depend on which object is the partial one. */
  lemma PartialMatchSymmetric<V>(a: map<string, V>, b: map<string, V>)
    ensures AgreeOnShared(a, b) <==> AgreeOnShared(b, a)
  {
  }

  /** Keys the partial object adds are never looked at. */
  lemma PartialMatchIgnoresExtraKeys<V>(partial: map<string, V>, full: map<string, V>, k: string, v: V)
    requires k !in full
    ensures AgreeOnShared(partial[k := v], full) <==> AgreeOnShared(partial, full)
  {
  }
}
