/** The slice of the Java platform the services lean on: the 64-bit `long` and 32-bit
    `int` ranges, `String.trim`, `String.split("\\s+")`, `Long.parseLong` and
    `Long.toString`. Each is written out so that its edge cases (empty strings,
    signs, overflow, trailing empty fields) are part of the model.
 */
module JavaLang {
  import opened Wrappers

  const MIN_LONG: int := -0x8000_0000_0000_0000
  const MAX_LONG: int := 0x7FFF_FFFF_FFFF_FFFF

  /** A Java `long` (and a non-null `java.lang.Long`). */
  type Long = x: int | MIN_LONG <= x <= MAX_LONG

  /** A Java `int`. */
  type Int32 = x: int | -0x8000_0000 <= x <= 0x7FFF_FFFF

  /** A `java.time.Instant`. The services only store and compare instants; the clock
      that produces them is a parameter of the operations that read it. */
  datatype Instant = Instant(epochSecond: int, nano: int)

  /** `String.contains`: `part` occurs somewhere in `text`. */
  predicate Contains(text: string, part: string) {
    exists i, j :: 0 <= i <= j <= |text| && text[i..j] == part
  }

  /** `String.startsWith`. */
  predicate StartsWith(text: string, prefix: string) {
    |prefix| <= |text| && text[..|prefix|] == prefix
  }

  // ---------------------------------------------------------------------------
  // String.trim

  /** `String.trim` removes every character whose code is at most U+0020. */
  predicate IsTrimmable(c: char) {
    c <= ' '
  }

  /** A string `trim` leaves as it is. */
  predicate Trimmed(s: string) {
    s == [] || (!IsTrimmable(s[0]) && !IsTrimmable(s[|s| - 1]))
  }

  /** The index of the first character of `s`, from `i` on, that `trim` keeps, or
      `|s|` if there is none. */
  function TrimStartFrom(s: string, i: nat): (r: nat)
    requires i <= |s|
    requires forall k :: 0 <= k < i ==> IsTrimmable(s[k])
    ensures i <= r <= |s|
    ensures forall k :: 0 <= k < r ==> IsTrimmable(s[k])
    ensures r < |s| ==> !IsTrimmable(s[r])
    decreases |s| - i
  {
    if i < |s| && IsTrimmable(s[i]) then TrimStartFrom(s, i + 1) else i
  }

  /** The end of the last character of `s[lo..j]` that `trim` keeps, or `lo` if there
      is none. */
  function TrimEndFrom(s: string, lo: nat, j: nat): (r: nat)
    requires lo <= j <= |s|
    requires forall k :: j <= k < |s| ==> IsTrimmable(s[k])
    ensures lo <= r <= j
    ensures forall k :: r <= k < |s| ==> IsTrimmable(s[k])
    ensures r > lo ==> !IsTrimmable(s[r - 1])
  {
    if j > lo && IsTrimmable(s[j - 1]) then TrimEndFrom(s, lo, j - 1) else j
  }

  /** `String.trim`: the longest infix of `s` that neither starts nor ends with a
      character at most U+0020; everything cut off on either side is such a character. */
  function Trim(s: string): (r: string)
    ensures Trimmed(r)
    ensures exists i, j :: 0 <= i <= j <= |s| && r == s[i..j]
                           && (forall k :: 0 <= k < i ==> IsTrimmable(s[k]))
                           && (forall k :: j <= k < |s| ==> IsTrimmable(s[k]))
  {
    var i := TrimStartFrom(s, 0);
    var j := TrimEndFrom(s, i, |s|);
    s[i..j]
  }

  /** Trimming any suffix of `s` gives a piece of `s`. */
  lemma TrimWithin(s: string, k: nat)
    requires k <= |s|
    ensures Contains(s, Trim(s[k..]))
  {
    var rest := s[k..];
    var i := TrimStartFrom(rest, 0);
    var j := TrimEndFrom(rest, i, |rest|);
    assert Trim(rest) == rest[i..j] == s[k + i..k + j];
  }

  lemma TrimOfTrimmed(s: string)
    requires Trimmed(s)
    ensures Trim(s) == s
  {
  }

  lemma TrimIdempotent(s: string)
    ensures Trim(Trim(s)) == Trim(s)
  {
    TrimOfTrimmed(Trim(s));
  }

  // ---------------------------------------------------------------------------
  // String.split("\\s+")

  /** The regular-expression class `\s`: space, tab, line feed, vertical tab,
      form feed and carriage return. Every such character is also trimmable. */
  predicate IsSpace(c: char) {
    c == ' ' || c == '\t' || c == '\n' || c == '\U{000B}' || c == '\U{000C}' || c == '\r'
  }

  /** A token as the bot commands expect one: non-empty and free of characters at
      most U+0020 (so free of `\s` as well). */
  predicate Word(t: string) {
    |t| > 0 && forall i :: 0 <= i < |t| ==> !IsTrimmable(t[i])
  }

  /** `t` contains no `\s` character. */
  predicate NoSpace(t: string) {
    forall i :: 0 <= i < |t| ==> !IsSpace(t[i])
  }

  /** Index of the first `\s` character of `s` at or after `i`, or `|s|` when there
      is none. */
  function SpaceFrom(s: string, i: nat): (k: nat)
    requires i <= |s|
    ensures i <= k <= |s|
    ensures forall j :: i <= j < k ==> !IsSpace(s[j])
    ensures k < |s| ==> IsSpace(s[k])
    decreases |s| - i
  {
    if i == |s| || IsSpace(s[i]) then i else SpaceFrom(s, i + 1)
  }

  /** Index of the first character of `s` at or after `i` that is not `\s`, or `|s|`
      when there is none. */
  function WordFrom(s: string, i: nat): (k: nat)
    requires i <= |s|
    ensures i <= k <= |s|
    ensures forall j :: i <= j < k ==> IsSpace(s[j])
    ensures k < |s| ==> !IsSpace(s[k])
    decreases |s| - i
  {
    if i < |s| && IsSpace(s[i]) then WordFrom(s, i + 1) else i
  }

  /** The fields of `s[i..]` between maximal runs of `\s`, before Java discards
      trailing empty fields: a leading run yields a leading "" and a trailing run a
      trailing "". Every field is free of `\s`, and only the first and the last can
      be empty. */
  function FieldsFrom(s: string, i: nat): (r: seq<string>)
    requires i <= |s|
    ensures |r| >= 1
    ensures forall n :: 0 <= n < |r| ==> NoSpace(r[n])
    ensures forall n :: 0 < n < |r| - 1 ==> |r[n]| > 0
    ensures i < |s| && !IsSpace(s[i]) ==> |r[0]| > 0
    ensures i < |s| && !IsSpace(s[|s| - 1]) ==> |r[|r| - 1]| > 0
    decreases |s| - i
  {
    var k := SpaceFrom(s, i);
    if k == |s| then [s[i..]]
    else
      var rest := FieldsFrom(s, WordFrom(s, k + 1));
      [s[i..k]] + rest
  }

  function DropTrailingEmpty(ts: seq<string>): (r: seq<string>)
    ensures |r| <= |ts| && r == ts[..|r|]
    ensures r == [] || |r[|r| - 1]| > 0
    ensures forall i :: |r| <= i < |ts| ==> |ts[i]| == 0
  {
    if |ts| > 0 && |ts[|ts| - 1]| == 0 then DropTrailingEmpty(ts[..|ts| - 1]) else ts
  }

  /** Dropping the trailing empty fields of `fs` leaves fields free of `\s`, and
      none of them empty when the first field is not. */
  lemma KeptFields(fs: seq<string>, r: seq<string>)
    requires |fs| >= 1
    requires forall i :: 0 <= i < |fs| ==> NoSpace(fs[i])
    requires forall i :: 0 < i < |fs| - 1 ==> |fs[i]| > 0
    requires |r| <= |fs| && r == fs[..|r|]
    requires r == [] || |r[|r| - 1]| > 0
    requires forall i :: |r| <= i < |fs| ==> |fs[i]| == 0
    ensures forall i :: 0 <= i < |r| ==> NoSpace(r[i])
    ensures |fs[0]| > 0 ==> |r| >= 1 && forall i :: 0 <= i < |r| ==> |r[i]| > 0
  {
    assert forall i :: 0 <= i < |r| ==> r[i] == fs[i];
  }

  /** A non-empty run of `\s` alone has two empty fields, and nothing is kept. */
  lemma FieldsOfBlanks(s: string)
    ensures |s| > 0 && (forall i :: 0 <= i < |s| ==> IsSpace(s[i])) ==>
              SpaceFrom(s, 0) == 0 && DropTrailingEmpty(FieldsFrom(s, 0)) == []
  {
    if |s| > 0 && (forall i :: 0 <= i < |s| ==> IsSpace(s[i])) {
      assert WordFrom(s, 1) == |s|;
      assert FieldsFrom(s, |s|) == [""];
      assert FieldsFrom(s, 0) == ["", ""];
    }
  }

  /** A reference for what splitting keeps: `s` with each maximal run of `\s`
      characters replaced by one space. A `\s` character followed by another one is
      dropped, and the last of a run becomes a space. */
  function Squeeze(s: string): string {
    if |s| == 0 then ""
    else if !IsSpace(s[0]) then [s[0]] + Squeeze(s[1..])
    else if |s| > 1 && IsSpace(s[1]) then Squeeze(s[1..])
    else " " + Squeeze(s[1..])
  }

  lemma Assoc(a: string, b: string, c: string)
    ensures a + (b + c) == a + b + c
  {
  }

  /** A string without `\s` has nothing to squeeze. */
  lemma {:induction false} SqueezeNoSpace(s: string)
    requires NoSpace(s)
    ensures Squeeze(s) == s
    decreases |s|
  {
    if |s| > 0 {
      SqueezeNoSpace(s[1..]);
      assert [s[0]] + s[1..] == s;
    }
  }

  /** Squeezing keeps a stretch `s[i..k]` free of `\s` as it is. */
  lemma {:induction false} SqueezeKeepsWord(s: string, i: nat, k: nat)
    requires i <= k <= |s|
    requires forall j :: i <= j < k ==> !IsSpace(s[j])
    ensures Squeeze(s[i..]) == s[i..k] + Squeeze(s[k..])
    decreases k - i
  {
    if i < k {
      SqueezeKeepsWord(s, i + 1, k);
      assert s[i..][1..] == s[i + 1..];
      assert [s[i]] + s[i + 1..k] == s[i..k];
      Assoc([s[i]], s[i + 1..k], Squeeze(s[k..]));
    }
  }

  /** Squeezing turns a maximal run `s[k..j]` of `\s` into a single space. */
  lemma {:induction false} SqueezeRun(s: string, k: nat, j: nat)
    requires k < j <= |s|
    requires forall m :: k <= m < j ==> IsSpace(s[m])
    requires j < |s| ==> !IsSpace(s[j])
    ensures Squeeze(s[k..]) == " " + Squeeze(s[j..])
    decreases j - k
  {
    assert s[k..][1..] == s[k + 1..];
    if k + 1 < j {
      SqueezeRun(s, k + 1, j);
    }
  }

  lemma JoinWordsCons(w: string, fs: seq<string>)
    requires |fs| >= 1
    ensures JoinWords([w] + fs) == w + " " + JoinWords(fs)
  {
    assert ([w] + fs)[1..] == fs;
  }

  /** Joining the fields of `s[i..]` with single spaces gives `s[i..]` squeezed. */
  lemma {:induction false} FieldsSqueeze(s: string, i: nat)
    requires i <= |s|
    ensures JoinWords(FieldsFrom(s, i)) == Squeeze(s[i..])
    decreases |s| - i
  {
    var k := SpaceFrom(s, i);
    if k == |s| {
      SqueezeNoSpace(s[i..]);
    } else {
      var j := WordFrom(s, k + 1);
      var w, rest := s[i..k], FieldsFrom(s, j);
      assert FieldsFrom(s, i) == [w] + rest;
      FieldsSqueeze(s, j);
      SqueezeKeepsWord(s, i, k);
      SqueezeRun(s, k, j);
      JoinSqueezedStep(w, rest, Squeeze(s[i..]), Squeeze(s[k..]), Squeeze(s[j..]));
    }
  }

  lemma JoinSqueezedStep(w: string, rest: seq<string>, x: string, y: string, z: string)
    requires |rest| >= 1 && JoinWords(rest) == z
    requires x == w + y && y == " " + z
    ensures JoinWords([w] + rest) == x
  {
    JoinWordsCons(w, rest);
    Assoc(w, " ", z);
  }

  /** `s.split("\\s+")`: with no match the whole input is the only field (so "" gives
      [""]); otherwise the fields with trailing empty ones removed. No token holds a
      `\s` character; a string that does not start with one splits into at least one
      token, none of them empty; a non-empty run of `\s` alone splits into nothing.
      Unless the string ends in `\s`, the tokens joined by single spaces are the
      string with each run of `\s` squeezed to one space, so together with the
      clauses above they are the maximal runs without `\s`, in order. */
  function Split(s: string): (r: seq<string>)
    ensures s == [] ==> r == [""]
    ensures NoSpace(s) ==> r == [s]
    ensures forall i :: 0 <= i < |r| ==> NoSpace(r[i])
    ensures |s| > 0 && !IsSpace(s[0]) ==> |r| >= 1 && forall i :: 0 <= i < |r| ==> |r[i]| > 0
    ensures |s| > 0 && (forall i :: 0 <= i < |s| ==> IsSpace(s[i])) ==> r == []
    ensures s == [] || !IsSpace(s[|s| - 1]) ==> JoinWords(r) == Squeeze(s)
  {
    if SpaceFrom(s, 0) == |s| then
      SqueezeNoSpace(s);
      [s]
    else
      var fs := FieldsFrom(s, 0);
      KeptFields(fs, DropTrailingEmpty(fs));
      FieldsOfBlanks(s);
      FieldsSqueeze(s, 0);
      assert s[0..] == s;
      DropTrailingEmpty(fs)
  }

  /** Words separated by single spaces: the shape of a well-formed bot command. */
  function JoinWords(ts: seq<string>): string {
    if |ts| == 0 then ""
    else if |ts| == 1 then ts[0]
    else ts[0] + " " + JoinWords(ts[1..])
  }

  lemma {:induction false} JoinWordsShape(ts: seq<string>)
    requires |ts| >= 1
    requires forall i :: 0 <= i < |ts| ==> Word(ts[i])
    ensures |JoinWords(ts)| >= |ts[0]|
    ensures JoinWords(ts)[..|ts[0]|] == ts[0]
    ensures Trimmed(JoinWords(ts))
    ensures |JoinWords(ts)| > 0
  {
    if |ts| > 1 {
      JoinWordsShape(ts[1..]);
      var rest := JoinWords(ts[1..]);
      assert JoinWords(ts) == ts[0] + " " + rest;
      assert JoinWords(ts)[|JoinWords(ts)| - 1] == rest[|rest| - 1];
    }
  }

  /** Words joined by spaces start with a character that is not `\s`. */
  lemma JoinWordsLeadsWithWord(ts: seq<string>)
    requires |ts| >= 1
    requires forall i :: 0 <= i < |ts| ==> Word(ts[i])
    ensures |JoinWords(ts)| > 0 && !IsSpace(JoinWords(ts)[0])
  {
    JoinWordsShape(ts);
    assert JoinWords(ts)[0] == ts[0][0];
  }

  /** Squeezing a string free of `\s`, one space and a string that starts with no
      `\s` keeps the first part and the space. */
  lemma SqueezeAfterWord(w: string, rest: string)
    requires NoSpace(w)
    requires |rest| > 0 && !IsSpace(rest[0])
    ensures Squeeze(w + " " + rest) == w + " " + Squeeze(rest)
  {
    var s := w + " " + rest;
    assert s[0..] == s;
    assert forall m :: 0 <= m < |w| ==> s[m] == w[m];
    SqueezeKeepsWord(s, 0, |w|);
    SqueezeRun(s, |w|, |w| + 1);
    assert s[0..|w|] == w;
    assert s[|w| + 1..] == rest;
    Assoc(w, " ", Squeeze(rest));
  }

  /** Words joined by single spaces have nothing to squeeze. */
  lemma {:induction false} SqueezeJoinWords(ts: seq<string>)
    requires |ts| >= 1
    requires forall n :: 0 <= n < |ts| ==> Word(ts[n])
    ensures Squeeze(JoinWords(ts)) == JoinWords(ts)
    decreases |ts|
  {
    if |ts| == 1 {
      SqueezeNoSpace(ts[0]);
    } else {
      var tail := ts[1..];
      assert forall n :: 0 <= n < |tail| ==> Word(tail[n]);
      SqueezeJoinWords(tail);
      JoinWordsLeadsWithWord(tail);
      SqueezeAfterWord(ts[0], JoinWords(tail));
    }
  }

  /** In tokens free of `\s` joined by single spaces, the first token ends at the
      first `\s`, and the other tokens follow the space after it. */
  lemma JoinWordsHead(a: seq<string>)
    requires |a| >= 1
    requires forall n :: 0 <= n < |a| ==> NoSpace(a[n])
    ensures |a[0]| <= |JoinWords(a)| && JoinWords(a)[..|a[0]|] == a[0]
    ensures SpaceFrom(JoinWords(a), 0) == |a[0]|
    ensures |a| == 1 <==> |a[0]| == |JoinWords(a)|
    ensures |a| > 1 ==> JoinWords(a)[|a[0]| + 1..] == JoinWords(a[1..])
  {
    var s := JoinWords(a);
    if |a| > 1 {
      assert s == a[0] + " " + JoinWords(a[1..]);
      assert forall m :: 0 <= m < |a[0]| ==> s[m] == a[0][m];
      assert s[|a[0]|] == ' ';
    }
  }

  /** Joining tokens free of `\s` with single spaces loses nothing: the joined string
      determines the tokens. */
  lemma {:induction false} JoinWordsInjective(a: seq<string>, b: seq<string>)
    requires |a| >= 1 && |b| >= 1
    requires forall n :: 0 <= n < |a| ==> NoSpace(a[n])
    requires forall n :: 0 <= n < |b| ==> NoSpace(b[n])
    requires JoinWords(a) == JoinWords(b)
    ensures a == b
    decreases |a|
  {
    JoinWordsHead(a);
    JoinWordsHead(b);
    if |a| > 1 {
      var ta, tb := a[1..], b[1..];
      assert forall n :: 0 <= n < |ta| ==> NoSpace(ta[n]);
      assert forall n :: 0 <= n < |tb| ==> NoSpace(tb[n]);
      JoinWordsInjective(ta, tb);
      assert a == [a[0]] + ta;
      assert b == [b[0]] + tb;
    }
  }

  /** A non-empty string that `trim` leaves alone neither starts nor ends in `\s`. */
  lemma TrimmedEnds(s: string)
    requires |s| > 0 && Trimmed(s)
    ensures !IsSpace(s[0]) && !IsSpace(s[|s| - 1])
  {
  }

  /** Splitting a command written as words separated by single spaces gives back
      exactly those words. */
  lemma SplitJoinWords(ts: seq<string>)
    requires |ts| >= 1
    requires forall i :: 0 <= i < |ts| ==> Word(ts[i])
    ensures Split(JoinWords(ts)) == ts
  {
    var s := JoinWords(ts);
    JoinWordsShape(ts);
    JoinWordsLeadsWithWord(ts);
    SqueezeJoinWords(ts);
    assert forall n :: 0 <= n < |ts| ==> NoSpace(ts[n]);
    var r := Split(s);
    assert |r| >= 1;
    assert forall n :: 0 <= n < |r| ==> NoSpace(r[n]);
    TrimmedEnds(s);
    assert JoinWords(r) == s;
    JoinWordsInjective(r, ts);
  }

  // ---------------------------------------------------------------------------
  // Long.parseLong and Long.toString (decimal, ASCII digits)

  predicate IsDigit(c: char) {
    '0' <= c <= '9'
  }

  predicate AllDigits(s: string) {
    forall i :: 0 <= i < |s| ==> IsDigit(s[i])
  }

  function DigitValue(c: char): nat
    requires IsDigit(c)
  {
    (c as int) - ('0' as int)
  }

  function DigitChar(d: nat): (c: char)
    requires d < 10
    ensures IsDigit(c) && DigitValue(c) == d
  {
    ('0' as int + d) as char
  }

  /** The number a string of decimal digits denotes, most significant digit first. */
  function DigitsValue(s: string): nat
    requires AllDigits(s)
  {
    if |s| == 0 then 0 else DigitsValue(s[..|s| - 1]) * 10 + DigitValue(s[|s| - 1])
  }

  /** `Long.parseLong(s)`; `None` is a `NumberFormatException`. An optional leading
      `-` or `+`, then at least one digit and nothing but digits, and the signed value
      must fit in 64 bits. */
  function ParseLong(s: string): (r: Option<Long>)
    ensures |s| > 0 && AllDigits(s) ==>
              && (r.Some? <==> DigitsValue(s) <= MAX_LONG)
              && (r.Some? ==> r.value == DigitsValue(s))
    ensures |s| > 1 && (s[0] == '-' || s[0] == '+') && AllDigits(s[1..]) ==>
              var v: int := if s[0] == '-' then -(DigitsValue(s[1..]) as int) else DigitsValue(s[1..]);
              && (r.Some? <==> MIN_LONG <= v <= MAX_LONG)
              && (r.Some? ==> r.value == v)
    ensures r.Some? ==> |s| > 0
    ensures r.Some? ==> IsDigit(s[0]) || (|s| > 1 && (s[0] == '-' || s[0] == '+'))
    ensures r.Some? ==> forall i :: 1 <= i < |s| ==> IsDigit(s[i])
    ensures r.Some? && r.value < 0 ==> s[0] == '-'
    ensures r.Some? ==> Word(s)
  {
    if |s| == 0 then None
    else
      var negative := s[0] == '-';
      var digits := if s[0] == '-' || s[0] == '+' then s[1..] else s;
      if |digits| == 0 || !AllDigits(digits) then None
      else
        var magnitude: int := DigitsValue(digits);
        var v: int := if negative then -magnitude else magnitude;
        assert forall i :: 1 <= i < |s| ==> s[i] == digits[i - (|s| - |digits|)];
        if MIN_LONG <= v <= MAX_LONG then Some(v) else None
  }

  /** The decimal digits of a natural number, without leading zeros. */
  function NatToDigits(n: nat): (r: string)
    ensures |r| > 0 && AllDigits(r)
    ensures DigitsValue(r) == n
    ensures |r| > 1 ==> r[0] != '0'
  {
    if n < 10 then [DigitChar(n)]
    else
      var front := NatToDigits(n / 10);
      var r := front + [DigitChar(n % 10)];
      assert r[..|r| - 1] == front;
      r
  }

  /** `Long.toString(x)`: a `-` for negative values, then the digits of the magnitude,
      with no `+` and no leading zero. */
  function FormatLong(x: int): (r: string)
    ensures Word(r)
    ensures r[0] == '-' <==> x < 0
    ensures x >= 0 ==> IsDigit(r[0])
    ensures forall i :: 1 <= i < |r| ==> IsDigit(r[i])
    ensures |r| > 1 ==> r[0] != '0' && (r[0] == '-' ==> r[1] != '0')
  {
    if x < 0 then "-" + NatToDigits(-x) else NatToDigits(x)
  }

  /** `Long.parseLong` reads back every value `Long.toString` writes. */
  lemma ParseFormatLong(x: Long)
    ensures ParseLong(FormatLong(x)) == Some(x)
  {
    var s := FormatLong(x);
    if x < 0 {
      var m: int := x;
      var d := NatToDigits(-m);
      assert s == "-" + d && s[1..] == d;
    } else {
      assert IsDigit(s[0]);
      assert DigitsValue(s) == x;
    }
  }

  /** A number outside the 64-bit range, written in decimal, is refused with a
      `NumberFormatException`. */
  lemma ParseFormatOutOfRange(x: int)
    requires x < MIN_LONG || x > MAX_LONG
    ensures ParseLong(FormatLong(x)) == None
  {
    var s := FormatLong(x);
    if x < 0 {
      var d := NatToDigits(-x);
      assert s == "-" + d && s[1..] == d;
    } else {
      assert IsDigit(s[0]);
      assert DigitsValue(s) == x;
    }
  }

  /** The shape `Long.toString` writes: an optional `-`, then digits with no leading
      zero (so no "-0" either). */
  predicate CanonicalDecimal(s: string) {
    && |s| > 0
    && (IsDigit(s[0]) || (s[0] == '-' && |s| > 1))
    && (forall i :: 1 <= i < |s| ==> IsDigit(s[i]))
    && (|s| > 1 ==> s[0] != '0' && (s[0] == '-' ==> s[1] != '0'))
  }

  lemma DigitOfValue(c: char)
    requires IsDigit(c)
    ensures DigitChar(DigitValue(c)) == c
  {
  }

  /** Digits that do not start with '0' denote a positive number. */
  lemma {:induction false} LeadingDigitPositive(d: string)
    requires |d| > 0 && AllDigits(d) && d[0] != '0'
    ensures DigitsValue(d) > 0
    decreases |d|
  {
    if |d| > 1 {
      LeadingDigitPositive(d[..|d| - 1]);
    }
  }

  /** Writing out the value of digits without a leading zero gives those digits. */
  lemma {:induction false} DigitsRoundTrip(d: string)
    requires |d| > 0 && AllDigits(d)
    requires |d| > 1 ==> d[0] != '0'
    ensures NatToDigits(DigitsValue(d)) == d
    decreases |d|
  {
    var last := d[|d| - 1];
    DigitOfValue(last);
    if |d| > 1 {
      var front := d[..|d| - 1];
      LeadingDigitPositive(front);
      DigitsRoundTrip(front);
      var v := DigitsValue(d);
      assert v == DigitsValue(front) * 10 + DigitValue(last);
      assert v / 10 == DigitsValue(front) && v % 10 == DigitValue(last);
      assert d == front + [last];
    }
  }

  /** `Long.toString` is the only canonical spelling: a canonical string that parses
      to `x` is `FormatLong(x)`. */
  lemma CanonicalIsFormat(s: string, x: Long)
    requires CanonicalDecimal(s) && ParseLong(s) == Some(x)
    ensures s == FormatLong(x)
  {
    if s[0] == '-' {
      var d := s[1..];
      assert AllDigits(d);
      DigitsRoundTrip(d);
      LeadingDigitPositive(d);
      assert s == "-" + d;
    } else {
      DigitsRoundTrip(s);
    }
  }
}
