/** The few string operations of Ruby's core library that the collector relies on,
    stated over `seq<char>`. */
module Text {

  import opened Wrappers

  /** Ruby's ASCII whitespace, the separators of `String#split(" ")`. */
  predicate IsSpace(c: char) {
    c == ' ' || c == '\t' || c == '\n' || c == '\r' || c == '\U{B}' || c == '\U{C}'
  }

  predicate IsDigit(c: char) {
    '0' <= c <= '9'
  }

  predicate IsDigits(s: string) {
    forall i :: 0 <= i < |s| ==> IsDigit(s[i])
  }

  /** A non-empty run of non-space characters, one element of `split(" ")`. */
  predicate IsWord(w: string) {
    |w| > 0 && forall i :: 0 <= i < |w| ==> !IsSpace(w[i])
  }

  predicate StartsWith(s: string, prefix: string) {
    |prefix| <= |s| && s[..|prefix|] == prefix
  }

  predicate EndsWith(s: string, suffix: string) {
    |suffix| <= |s| && s[|s| - |suffix|..] == suffix
  }

  predicate OccursAt(s: string, sub: string, i: int) {
    0 <= i && i + |sub| <= |s| && s[i..i + |sub|] == sub
  }

  /** Ruby's `String#include?`. */
  predicate Contains(s: string, sub: string) {
    exists i :: 0 <= i <= |s| - |sub| && OccursAt(s, sub, i)
  }

  /** Length of the run of non-space characters that starts `s`. */
  function WordEnd(s: string): (n: nat)
    ensures n <= |s|
    ensures forall i :: 0 <= i < n ==> !IsSpace(s[i])
    ensures n < |s| ==> IsSpace(s[n])
  {
    if |s| == 0 || IsSpace(s[0]) then 0 else 1 + WordEnd(s[1..])
  }

  /** Ruby's awk-style `String#split(" ")`: the maximal runs of non-space characters, in order. */
  function Words(s: string): (ws: seq<string>)
    ensures forall i :: 0 <= i < |ws| ==> IsWord(ws[i])
    decreases |s|
  {
    if |s| == 0 then []
    else if IsSpace(s[0]) then Words(s[1..])
    else
      var n := WordEnd(s);
      [s[..n]] + Words(s[n..])
  }

  lemma {:induction false} WordEndOfWord(w: string, sep: char, rest: string)
    requires IsWord(w) && IsSpace(sep)
    ensures WordEnd(w + [sep] + rest) == |w|
    decreases |w|
  {
    var s := w + [sep] + rest;
    if |w| > 1 {
      assert s[1..] == w[1..] + [sep] + rest;
      WordEndOfWord(w[1..], sep, rest);
    } else {
      assert s[1..] == [sep] + rest;
    }
  }

  /** A word followed by a separator is the first element of the split. */
  lemma WordsCons(w: string, sep: char, rest: string)
    requires IsWord(w) && IsSpace(sep)
    ensures Words(w + [sep] + rest) == [w] + Words([sep] + rest)
  {
    var s := w + [sep] + rest;
    WordEndOfWord(w, sep, rest);
    assert s[..|w|] == w;
    assert s[|w|..] == [sep] + rest;
  }

  /** Words joined with one space after each, the shape of a line the collector reads. */
  function Unwords(ws: seq<string>): string
  {
    if |ws| == 0 then "" else ws[0] + " " + Unwords(ws[1..])
  }

  /** Splitting words joined by spaces gives the words back. */
  lemma {:induction false} WordsUnwords(ws: seq<string>)
    requires forall i :: 0 <= i < |ws| ==> IsWord(ws[i])
    ensures Words(Unwords(ws)) == ws
  {
    if |ws| > 0 {
      var rest := Unwords(ws[1..]);
      WordsUnwords(ws[1..]);
      WordsCons(ws[0], ' ', rest);
      assert Unwords(ws) == ws[0] + [' '] + rest;
      assert ([' '] + rest)[1..] == rest;
      assert ws == [ws[0]] + ws[1..];
    }
  }

  /** `w` is the first word of `s`: it starts at `k`, after nothing but whitespace, and ends
      at whitespace or at the end of `s`. */
  predicate FirstWordAt(s: string, w: string, k: int)
  {
    && 0 <= k && k + |w| <= |s|
    && (forall i :: 0 <= i < k ==> IsSpace(s[i]))
    && s[k..k + |w|] == w
    && (k + |w| == |s| || IsSpace(s[k + |w|]))
  }

  /** The split is empty exactly for a blank string; otherwise its first element is the
      first word of the string. */
  lemma {:induction false} FirstWord(s: string)
    ensures |Words(s)| == 0 <==> forall i :: 0 <= i < |s| ==> IsSpace(s[i])
    ensures |Words(s)| > 0 ==> exists k :: FirstWordAt(s, Words(s)[0], k)
    decreases |s|
  {
    if |s| > 0 {
      if IsSpace(s[0]) {
        var t := s[1..];
        FirstWord(t);
        assert forall i :: 1 <= i < |s| ==> s[i] == t[i - 1];
        if |Words(s)| > 0 {
          var w := Words(s)[0];
          var k :| FirstWordAt(t, w, k);
          assert s[k + 1..k + 1 + |w|] == t[k..k + |w|];
          assert FirstWordAt(s, w, k + 1);
        }
      } else {
        var n := WordEnd(s);
        assert Words(s)[0] == s[..n];
        assert FirstWordAt(s, s[..n], 0);
      }
    }
  }

  /** Length of the run of decimal digits that starts `s`. */
  function DigitRun(s: string): (n: nat)
    ensures n <= |s|
    ensures IsDigits(s[..n])
    ensures n < |s| ==> !IsDigit(s[n])
  {
    if |s| == 0 || !IsDigit(s[0]) then 0
    else
      var n := 1 + DigitRun(s[1..]);
      assert s[..n] == [s[0]] + s[1..][..n - 1];
      n
  }

  /** The value of a string of decimal digits. */
  function DecimalValue(d: string): nat
    requires IsDigits(d)
  {
    if |d| == 0 then 0
    else 10 * DecimalValue(d[..|d| - 1]) + (d[|d| - 1] as int - '0' as int)
  }

  /** The shortest decimal spelling of a natural number. */
  function DecimalString(n: nat): (d: string)
    ensures |d| > 0 && IsDigits(d)
  {
    var last := ['0' + (n % 10) as char];
    if n < 10 then last else DecimalString(n / 10) + last
  }

  lemma {:induction false} DecimalRoundTrip(n: nat)
    ensures DecimalValue(DecimalString(n)) == n
  {
    var d := DecimalString(n);
    if n >= 10 {
      DecimalRoundTrip(n / 10);
      assert d[..|d| - 1] == DecimalString(n / 10);
    }
  }

  /** A decimal spelling is one word of a split line. */
  lemma DecimalIsWord(n: nat)
    ensures IsWord(DecimalString(n))
  {
    var d := DecimalString(n);
    assert forall i :: 0 <= i < |d| ==> IsDigit(d[i]) && !IsSpace(d[i]);
  }

  /** Ruby's `String#to_i` on one word: an optional sign and the leading digits,
      0 when there are none. */
  function ToI(s: string): int
  {
    if |s| > 0 && (s[0] == '-' || s[0] == '+') then
      var t := s[1..];
      var v: int := DecimalValue(t[..DigitRun(t)]);
      if s[0] == '-' then -v else v
    else
      DecimalValue(s[..DigitRun(s)])
  }

  /** Word `k` of a split line read with `to_i`; 0 when the line is shorter, as `nil.to_i` is. */
  function FieldToI(words: seq<string>, k: nat): int
  {
    if k < |words| then ToI(words[k]) else 0
  }

  /** Index of the first `c` in `s`, or `|s|` when there is none. */
  function IndexOf(s: string, c: char): (i: nat)
    ensures i <= |s|
    ensures c !in s[..i]
    ensures i < |s| ==> s[i] == c
  {
    if |s| == 0 then 0
    else if s[0] == c then 0
    else
      var i := 1 + IndexOf(s[1..], c);
      assert s[..i] == [s[0]] + s[1..][..i - 1];
      i
  }

  /** The first `c` is where the `c`-free prefix ends. */
  lemma {:induction false} IndexOfAfter(prefix: string, rest: string, c: char)
    requires c !in prefix
    requires rest == [] || rest[0] == c
    ensures IndexOf(prefix + rest, c) == |prefix|
    decreases |prefix|
  {
    var s := prefix + rest;
    if |prefix| > 0 {
      assert s[1..] == prefix[1..] + rest;
      assert prefix[0] in prefix;
      IndexOfAfter(prefix[1..], rest, c);
    }
  }

  /** Ruby's `Integer(s, 10)`: an optional sign followed by at least one digit and nothing else. */
  function ParseInteger(s: string): (r: Option<int>)
    ensures r.Some? ==> |s| > 0
  {
    if |s| > 1 && (s[0] == '-' || s[0] == '+') && IsDigits(s[1..]) then
      var v: int := DecimalValue(s[1..]);
      Some(if s[0] == '-' then -v else v)
    else if |s| > 0 && IsDigits(s) then Some(DecimalValue(s))
    else None
  }

  lemma DecimalParses(n: nat)
    ensures ParseInteger(DecimalString(n)) == Some(n)
    ensures ToI(DecimalString(n)) == n
  {
    var d := DecimalString(n);
    DecimalRoundTrip(n);
    assert d[..|d|] == d;
  }

  /** Ruby's `String#chomp` without argument: drops one trailing "\r\n", "\n" or "\r". */
  function Chomp(s: string): (r: string)
    ensures StartsWith(s, r)
    ensures forall i :: |r| <= i < |s| ==> s[i] == '\n' || s[i] == '\r'
  {
    var n := |s|;
    if n >= 2 && s[n - 2] == '\r' && s[n - 1] == '\n' then s[..n - 2]
    else if n >= 1 && (s[n - 1] == '\n' || s[n - 1] == '\r') then s[..n - 1]
    else s
  }

  /** Ruby's `String#<=>`: lexicographic order of the characters. */
  function CompareStrings(a: string, b: string): (r: int)
    ensures -1 <= r <= 1
  {
    if |a| == 0 && |b| == 0 then 0
    else if |a| == 0 then -1
    else if |b| == 0 then 1
    else if a[0] < b[0] then -1
    else if a[0] > b[0] then 1
    else CompareStrings(a[1..], b[1..])
  }

  /** Ruby's `Integer#<=>`. */
  function CompareInts(x: int, y: int): (r: int)
    ensures r == 0 <==> x == y
    ensures r < 0 <==> x < y
  {
    if x < y then -1 else if x > y then 1 else 0
  }

  lemma {:induction false} CompareStringsZero(a: string, b: string)
    ensures CompareStrings(a, b) == 0 <==> a == b
  {
    if |a| > 0 && |b| > 0 && a[0] == b[0] {
      CompareStringsZero(a[1..], b[1..]);
      assert a == [a[0]] + a[1..] && b == [b[0]] + b[1..];
    }
  }

  lemma {:induction false} CompareStringsFlip(a: string, b: string)
    ensures CompareStrings(b, a) == -CompareStrings(a, b)
  {
    if |a| > 0 && |b| > 0 && a[0] == b[0] {
      CompareStringsFlip(a[1..], b[1..]);
    }
  }

  lemma {:induction false} CompareStringsTransitive(a: string, b: string, c: string)
    requires CompareStrings(a, b) < 0 && CompareStrings(b, c) < 0
    ensures CompareStrings(a, c) < 0
  {
    if |a| > 0 && |b| > 0 && |c| > 0 && a[0] == b[0] && b[0] == c[0] {
      CompareStringsTransitive(a[1..], b[1..], c[1..]);
    }
  }
}
