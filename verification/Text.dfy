/** The string operations the cron parser and printer use, on ASCII text. */
module Text {
  import opened Wrappers

  predicate IsSpace(c: char) {
    var n := c as int;
    9 <= n <= 13 || 28 <= n <= 32
  }

  /** Tab, newline, vertical tab, form feed, return, the four separators and the blank. */
  lemma SpacesExactly(c: char)
    ensures IsSpace(c) <==> c in "\t\n\U{0B}\U{0C}\r\U{1C}\U{1D}\U{1E}\U{1F} "
  {
    var spaces := "\t\n\U{0B}\U{0C}\r\U{1C}\U{1D}\U{1E}\U{1F} ";
    assert forall i :: 0 <= i < |spaces| ==> IsSpace(spaces[i]);
    if IsSpace(c) {
      var n := c as int;
      assert spaces[if n <= 13 then n - 9 else n - 23] == c;
    }
  }

  predicate IsDigit(c: char) {
    48 <= c as int <= 57
  }

  function DigitOf(c: char): nat
    requires IsDigit(c)
  {
    c as int - 48
  }

  function DigitChar(d: nat): (c: char)
    requires d <= 9
    ensures IsDigit(c) && DigitOf(c) == d
  {
    (48 + d) as char
  }

  /** str.isdigit() on ASCII. */
  predicate IsDigits(s: string) {
    s != "" && forall i :: 0 <= i < |s| ==> IsDigit(s[i])
  }

  predicate NoSpaces(s: string) {
    forall i :: 0 <= i < |s| ==> !IsSpace(s[i])
  }

  function TrimLeft(s: string): string {
    if s != "" && IsSpace(s[0]) then TrimLeft(s[1..]) else s
  }

  function TrimRight(s: string): string {
    if s != "" && IsSpace(s[|s| - 1]) then TrimRight(s[..|s| - 1]) else s
  }

  /** str.strip(). */
  function Trim(s: string): string {
    TrimRight(TrimLeft(s))
  }

  lemma TrimNoSpaces(s: string)
    requires NoSpaces(s)
    ensures Trim(s) == s
  {
  }

  function WordLength(s: string): (n: nat)
    ensures n <= |s| && NoSpaces(s[..n])
    ensures n < |s| ==> IsSpace(s[n])
    ensures s != "" && !IsSpace(s[0]) ==> n > 0
  {
    if s == "" || IsSpace(s[0]) then 0 else 1 + WordLength(s[1..])
  }

  /** str.split() without a separator: the maximal runs of non-space characters. */
  function Words(s: string): (ws: seq<string>)
    ensures forall i :: 0 <= i < |ws| ==> ws[i] != "" && NoSpaces(ws[i])
    decreases |s|
  {
    if s == "" then []
    else if IsSpace(s[0]) then Words(s[1..])
    else
      var n := WordLength(s);
      [s[..n]] + Words(s[n..])
  }

  /** str.join() with a single character between the pieces. */
  function Join(pieces: seq<string>, c: char): string {
    if pieces == [] then ""
    else if |pieces| == 1 then pieces[0]
    else pieces[0] + [c] + Join(pieces[1..], c)
  }

  lemma {:induction false} WordLengthOf(w: string, rest: string)
    requires NoSpaces(w) && (rest == "" || IsSpace(rest[0]))
    ensures WordLength(w + rest) == |w|
    decreases |w|
  {
    if w == "" {
      assert w + rest == rest;
    } else {
      assert (w + rest)[1..] == w[1..] + rest;
      WordLengthOf(w[1..], rest);
    }
  }

  /** Joining words with single spaces and splitting again gives the words back. */
  lemma {:induction false} WordsOfJoin(ws: seq<string>)
    requires forall i :: 0 <= i < |ws| ==> ws[i] != "" && NoSpaces(ws[i])
    ensures Words(Join(ws, ' ')) == ws
    decreases |ws|
  {
    if |ws| == 1 {
      WordLengthOf(ws[0], "");
      assert ws[0] + "" == ws[0];
    } else if |ws| > 1 {
      var rest := " " + Join(ws[1..], ' ');
      assert Join(ws, ' ') == ws[0] + rest;
      WordLengthOf(ws[0], rest);
      assert (ws[0] + rest)[..|ws[0]|] == ws[0] && (ws[0] + rest)[|ws[0]|..] == rest;
      assert rest[1..] == Join(ws[1..], ' ');
      WordsOfJoin(ws[1..]);
    }
  }

  /** Any space character, wherever it stands, separates words. */
  lemma {:induction false} WordsAround(a: string, c: char, b: string)
    requires IsSpace(c)
    ensures Words(a + [c] + b) == Words(a) + Words(b)
    decreases |a|
  {
    var text := a + [c] + b;
    if a == "" {
      assert text[0] == c && text[1..] == b;
    } else if IsSpace(a[0]) {
      assert text[1..] == a[1..] + [c] + b;
      WordsAround(a[1..], c, b);
    } else {
      var n := WordLength(a);
      var rest := a[n..] + [c] + b;
      assert text == a[..n] + rest;
      WordLengthOf(a[..n], rest);
      WordsAround(a[n..], c, b);
    }
  }

  predicate AllSpaces(s: string) {
    forall i :: 0 <= i < |s| ==> IsSpace(s[i])
  }

  lemma {:induction false} TrimLeftExactly(s: string) returns (left: string)
    ensures s == left + TrimLeft(s) && AllSpaces(left)
    ensures TrimLeft(s) != "" ==> !IsSpace(TrimLeft(s)[0])
    decreases |s|
  {
    if s != "" && IsSpace(s[0]) {
      var more := TrimLeftExactly(s[1..]);
      left := [s[0]] + more;
    } else {
      left := "";
    }
  }

  lemma {:induction false} TrimRightExactly(s: string) returns (right: string)
    ensures s == TrimRight(s) + right && AllSpaces(right)
    ensures TrimRight(s) != "" ==> !IsSpace(TrimRight(s)[|TrimRight(s)| - 1])
    decreases |s|
  {
    if s != "" && IsSpace(s[|s| - 1]) {
      var more := TrimRightExactly(s[..|s| - 1]);
      right := more + [s[|s| - 1]];
    } else {
      right := "";
    }
  }

  lemma TrimTwice(s: string)
    ensures Trim(Trim(s)) == Trim(s)
  {
    var left, right := TrimExactly(s);
  }

  /** Trimming takes the space at both ends and nothing else. */
  lemma TrimExactly(s: string) returns (left: string, right: string)
    ensures s == left + Trim(s) + right && AllSpaces(left) && AllSpaces(right)
    ensures var t := Trim(s); t != "" ==> !IsSpace(t[0]) && !IsSpace(t[|t| - 1])
  {
    left := TrimLeftExactly(s);
    right := TrimRightExactly(TrimLeft(s));
  }

  /** str.split(c): the pieces between separators, at least one. */
  function SplitOn(s: string, c: char): (r: seq<string>)
    ensures |r| >= 1
  {
    if s == "" then [s]
    else if s[0] == c then [""] + SplitOn(s[1..], c)
    else
      var rest := SplitOn(s[1..], c);
      [[s[0]] + rest[0]] + rest[1..]
  }

  predicate StandsAt(text: string, part: string, i: nat) {
    i + |part| <= |text| && text[i..i + |part|] == part
  }

  ghost predicate Contains(text: string, part: string) {
    exists i: nat :: StandsAt(text, part, i)
  }

  lemma ContainsInside(a: string, text: string, b: string, part: string)
    requires Contains(text, part)
    ensures Contains(a + text + b, part)
  {
    var i: nat :| StandsAt(text, part, i);
    var all := a + text + b;
    assert all[|a|..|a| + |text|] == text;
    assert all[|a| + i..|a| + i + |part|] == text[i..i + |part|];
    assert StandsAt(all, part, |a| + i);
  }

  lemma ContainsItself(text: string)
    ensures Contains(text, text)
  {
    assert StandsAt(text, text, 0);
  }

  lemma {:induction false} SplitWithout(s: string, c: char)
    requires c !in s
    ensures SplitOn(s, c) == [s]
    decreases |s|
  {
    if s != "" {
      assert s[0] != c;
      SplitWithout(s[1..], c);
      assert [s[0]] + s[1..] == s;
    }
  }

  lemma {:induction false} SplitAround(a: string, c: char, b: string)
    requires c !in a
    ensures SplitOn(a + [c] + b, c) == [a] + SplitOn(b, c)
    decreases |a|
  {
    var text := a + [c] + b;
    if a == "" {
      assert text[0] == c && text[1..] == b;
    } else {
      assert text[0] == a[0] && text[1..] == a[1..] + [c] + b;
      SplitAround(a[1..], c, b);
      assert [a[0]] + a[1..] == a;
    }
  }

  /** Splitting what was joined gives the pieces back. */
  lemma {:induction false} SplitOfJoin(pieces: seq<string>, c: char)
    requires pieces != [] && forall i :: 0 <= i < |pieces| ==> c !in pieces[i]
    ensures SplitOn(Join(pieces, c), c) == pieces
    decreases |pieces|
  {
    if |pieces| == 1 {
      SplitWithout(pieces[0], c);
    } else {
      SplitAround(pieces[0], c, Join(pieces[1..], c));
      SplitOfJoin(pieces[1..], c);
    }
  }

  /** str.partition(c): what precedes and follows the first separator. */
  function Before(s: string, c: char): string {
    if s == "" || s[0] == c then "" else [s[0]] + Before(s[1..], c)
  }

  function Behind(s: string, c: char): string {
    if s == "" then "" else if s[0] == c then s[1..] else Behind(s[1..], c)
  }

  function DigitsValue(s: string): nat
    requires forall i :: 0 <= i < |s| ==> IsDigit(s[i])
  {
    if s == "" then 0
    else DigitsValue(s[..|s| - 1]) * 10 + DigitOf(s[|s| - 1])
  }

  /** int() on ASCII decimal text: surrounding space, an optional sign, digits. */
  function ParseInt(raw: string): Option<int> {
    var s := Trim(raw);
    if IsDigits(s) then Some(DigitsValue(s))
    else if s != "" && s[0] == '+' && IsDigits(s[1..]) then Some(DigitsValue(s[1..]))
    else if s != "" && s[0] == '-' && IsDigits(s[1..]) then
      var n: int := DigitsValue(s[1..]);
      Some(-n)
    else None
  }

  /** The decimal form a template literal prints for a natural number. */
  function Decimal(n: nat): (s: string)
    ensures IsDigits(s)
  {
    var last := [DigitChar(n % 10)];
    if n < 10 then last else Decimal(n / 10) + last
  }

  /** Reading a printed number gives the number back. */
  lemma {:induction false} DecimalValue(n: nat)
    ensures DigitsValue(Decimal(n)) == n
    decreases n
  {
    if n >= 10 {
      DecimalValue(n / 10);
      var s := Decimal(n);
      assert s[..|s| - 1] == Decimal(n / 10);
    }
  }

  lemma DigitsHaveNoSpaces(s: string)
    requires IsDigits(s)
    ensures NoSpaces(s) && ',' !in s && '/' !in s && '-' !in s && s != "*"
  {
    assert !IsDigit(',') && !IsDigit('/') && !IsDigit('-') && !IsDigit('*');
    forall i | 0 <= i < |s| ensures !IsSpace(s[i]) && s[i] !in [',', '/', '-'] {
      assert IsDigit(s[i]);
    }
    assert IsDigit(s[0]);
  }

  function UpperChar(c: char): char {
    if 'a' <= c <= 'z' then (c as int - 32) as char else c
  }

  /** str.upper() on ASCII. */
  function Upper(s: string): (r: string)
    ensures |r| == |s|
    ensures forall i :: 0 <= i < |s| ==> r[i] == UpperChar(s[i])
  {
    seq(|s|, i requires 0 <= i < |s| => UpperChar(s[i]))
  }
}
