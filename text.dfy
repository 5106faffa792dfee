/** The Python string built-ins the bot relies on: `str.isspace`, `strip`,
    `split()`, `' '.join`, `replace(old, '')`, `lower`, the substring test
    `sub in s`, and `int(text)` with its decimal inverse `str(n)`. */
module Text {
  import opened Wrappers

  /** The characters `str.isspace` accepts. */
  predicate IsSpace(c: char) {
    || c == ' ' || c == '\t' || c == '\n' || c == '\r'
    || c == '\U{000B}' || c == '\U{000C}'
    || ('\U{001C}' <= c <= '\U{001F}')
    || c == '\U{0085}' || c == '\U{00A0}' || c == '\U{1680}'
    || ('\U{2000}' <= c <= '\U{200A}')
    || c == '\U{2028}' || c == '\U{2029}' || c == '\U{202F}' || c == '\U{205F}' || c == '\U{3000}'
  }

  predicate NoSpace(s: string) {
    forall k :: 0 <= k < |s| ==> !IsSpace(s[k])
  }

  /** Digits and ':' are not whitespace. */
  lemma DigitsNoSpace(s: string)
    requires forall k :: 0 <= k < |s| ==> IsDigit(s[k]) || s[k] == ':'
    ensures NoSpace(s)
  {
  }

  predicate AllSpace(s: string) {
    forall k :: 0 <= k < |s| ==> IsSpace(s[k])
  }

  /** Number of whitespace characters at the front of `s`. */
  function LeadingSpaces(s: string): (n: nat)
    ensures n <= |s|
    ensures AllSpace(s[..n])
    ensures n < |s| ==> !IsSpace(s[n])
  {
    if s == [] || !IsSpace(s[0]) then 0 else 1 + LeadingSpaces(s[1..])
  }

  /** Number of whitespace characters at the end of `s`. */
  function TrailingSpaces(s: string): (n: nat)
    ensures n <= |s|
    ensures AllSpace(s[|s| - n..])
    ensures n < |s| ==> !IsSpace(s[|s| - n - 1])
  {
    if s == [] || !IsSpace(s[|s| - 1]) then 0 else 1 + TrailingSpaces(s[..|s| - 1])
  }

  /** `s.strip()`: whitespace removed from both ends. */
  function Strip(s: string): (r: string)
    ensures |r| <= |s|
    ensures r == [] <==> AllSpace(s)
    ensures r != [] ==> !IsSpace(r[0]) && !IsSpace(r[|r| - 1])
    ensures NoSpace(s) ==> r == s
    ensures forall c :: c in r ==> c in s
  {
    var lead := LeadingSpaces(s);
    if lead == |s| then
      []
    else
      var trail := TrailingSpaces(s);
      assert !AllSpace(s) by { assert !IsSpace(s[lead]); }
      s[lead..|s| - trail]
  }

  /** Length of the run of non-whitespace characters at the front of `s`. */
  function WordLength(s: string): (n: nat)
    ensures n <= |s|
    ensures NoSpace(s[..n])
    ensures n < |s| ==> IsSpace(s[n])
  {
    if s == [] || IsSpace(s[0]) then 0 else 1 + WordLength(s[1..])
  }

  predicate IsWord(w: string) {
    w != [] && NoSpace(w)
  }

  /** `s.split()` with no separator: the maximal runs of non-whitespace. */
  function Split(s: string): (words: seq<string>)
    decreases |s|
    ensures forall i :: 0 <= i < |words| ==> IsWord(words[i])
    ensures words == [] <==> AllSpace(s)
  {
    if s == [] then
      []
    else if IsSpace(s[0]) then
      var rest := Split(s[1..]);
      assert AllSpace(s[1..]) ==> AllSpace(s) by {
        if AllSpace(s[1..]) {
          forall k | 0 <= k < |s| ensures IsSpace(s[k]) {
            if k > 0 { assert s[k] == s[1..][k - 1]; }
          }
        }
      }
      rest
    else
      var n := WordLength(s);
      [s[..n]] + Split(s[n..])
  }

  /** The words glued end to end: what is left of `s` without its whitespace. */
  function Concat(words: seq<string>): string {
    if words == [] then [] else words[0] + Concat(words[1..])
  }

  /** The characters of `s` that are not whitespace, in order. */
  function NonSpace(s: string): string {
    if s == [] then [] else (if IsSpace(s[0]) then [] else [s[0]]) + NonSpace(s[1..])
  }

  lemma {:induction false} NonSpaceAppend(a: string, b: string)
    ensures NonSpace(a + b) == NonSpace(a) + NonSpace(b)
  {
    if a == [] {
      assert a + b == b;
    } else {
      assert (a + b)[1..] == a[1..] + b;
      NonSpaceAppend(a[1..], b);
    }
  }

  lemma {:induction false} NonSpaceOfWord(w: string)
    requires NoSpace(w)
    ensures NonSpace(w) == w
  {
    if w != [] {
      assert NoSpace(w[1..]) by {
        forall k | 0 <= k < |w[1..]| ensures !IsSpace(w[1..][k]) { assert w[1..][k] == w[k + 1]; }
      }
      NonSpaceOfWord(w[1..]);
    }
  }

  /** `split()` loses nothing but whitespace: gluing the words back together
      gives exactly the non-whitespace characters of the input, in order. */
  lemma {:induction false} SplitKeepsNonSpace(s: string)
    decreases |s|
    ensures Concat(Split(s)) == NonSpace(s)
  {
    if s == [] {
    } else if IsSpace(s[0]) {
      SplitKeepsNonSpace(s[1..]);
    } else {
      var n := WordLength(s);
      var words := Split(s);
      assert words == [s[..n]] + Split(s[n..]);
      assert words[1..] == Split(s[n..]);
      SplitKeepsNonSpace(s[n..]);
      assert s == s[..n] + s[n..];
      NonSpaceAppend(s[..n], s[n..]);
      NonSpaceOfWord(s[..n]);
    }
  }

  lemma {:induction false} WordLengthOfWord(w: string, rest: string)
    requires NoSpace(w)
    requires rest == [] || IsSpace(rest[0])
    ensures WordLength(w + rest) == |w|
  {
    if w != [] {
      assert (w + rest)[1..] == w[1..] + rest;
      assert NoSpace(w[1..]) by {
        forall k | 0 <= k < |w[1..]| ensures !IsSpace(w[1..][k]) { assert w[1..][k] == w[k + 1]; }
      }
      WordLengthOfWord(w[1..], rest);
    } else {
      assert w + rest == rest;
    }
  }

  /** `split()` takes a leading word off whole when whitespace (or nothing)
      follows it. */
  lemma SplitAfterWord(w: string, rest: string)
    requires IsWord(w)
    requires rest == [] || IsSpace(rest[0])
    ensures Split(w + rest) == [w] + Split(rest)
  {
    WordLengthOfWord(w, rest);
    var s := w + rest;
    assert s[..|w|] == w && s[|w|..] == rest;
    assert !IsSpace(s[0]);
  }

  /** `sep.join(parts)`. */
  function Join(sep: string, parts: seq<string>): (r: string)
    ensures parts == [] ==> r == []
    ensures |parts| == 1 ==> r == parts[0]
  {
    if parts == [] then []
    else if |parts| == 1 then parts[0]
    else parts[0] + sep + Join(sep, parts[1..])
  }

  /** Two pieces without the separator, joined by it, split back into
      those two. */
  lemma TwoPieces(a: string, b: string, sep: char)
    requires sep !in a && sep !in b
    ensures sep in a + [sep] + b
    ensures SplitOn(a + [sep] + b, sep) == [a, b]
  {
    assert (a + [sep] + b)[|a|] == sep;
    SplitOnAround(a, sep, b);
  }

  /** Three pieces without the separator, joined by it, split back into
      those three. */
  lemma ThreePieces(a: string, b: string, c: string, sep: char)
    requires sep !in a && sep !in b && sep !in c
    ensures SplitOn(a + [sep] + b + [sep] + c, sep) == [a, b, c]
  {
    assert a + [sep] + b + [sep] + c == a + [sep] + (b + [sep] + c);
    SplitOnAround(a, sep, b + [sep] + c);
    SplitOnAround(b, sep, c);
  }

  /** `split()` skips a leading space. */
  lemma SplitAfterSpace(t: string)
    ensures Split(" " + t) == Split(t)
  {
    assert (" " + t)[1..] == t;
  }

  /** `split()` gives back the words that `' '.join` put together. */
  lemma {:induction false} SplitJoinWords(ws: seq<string>)
    requires forall i :: 0 <= i < |ws| ==> IsWord(ws[i])
    ensures Split(Join(" ", ws)) == ws
  {
    if |ws| == 1 {
      SplitAfterWord(ws[0], []);
      assert ws[0] + [] == ws[0];
    } else if |ws| > 1 {
      var rest := Join(" ", ws[1..]);
      SplitJoinWords(ws[1..]);
      assert Join(" ", ws) == ws[0] + (" " + rest);
      SplitAfterWord(ws[0], " " + rest);
      SplitAfterSpace(rest);
      assert ws == [ws[0]] + ws[1..];
    }
  }

  /** A word, a space and more words split into all of the words. */
  lemma SplitWordThenWords(w: string, ws: seq<string>)
    requires IsWord(w) && forall i :: 0 <= i < |ws| ==> IsWord(ws[i])
    ensures Split(w + " " + Join(" ", ws)) == [w] + ws
  {
    var rest := Join(" ", ws);
    assert w + " " + rest == w + (" " + rest);
    SplitAfterWord(w, " " + rest);
    SplitAfterSpace(rest);
    SplitJoinWords(ws);
  }

  /** Words joined by single spaces neither start nor end with whitespace. */
  lemma {:induction false} JoinWordsEnds(ws: seq<string>)
    requires ws != [] && forall i :: 0 <= i < |ws| ==> IsWord(ws[i])
    ensures Join(" ", ws) != [] && !IsSpace(Join(" ", ws)[0]) && !IsSpace(Join(" ", ws)[|Join(" ", ws)| - 1])
  {
    if |ws| > 1 {
      var rest := Join(" ", ws[1..]);
      JoinWordsEnds(ws[1..]);
      var j := Join(" ", ws);
      assert j == ws[0] + (" " + rest);
      assert j[0] == ws[0][0];
      assert j[|j| - 1] == rest[|rest| - 1];
    }
  }

  /** `strip()` leaves words joined by single spaces as they are. */
  lemma StripJoinWords(ws: seq<string>)
    requires ws != [] && forall i :: 0 <= i < |ws| ==> IsWord(ws[i])
    ensures Strip(Join(" ", ws)) == Join(" ", ws)
  {
    var j := Join(" ", ws);
    JoinWordsEnds(ws);
    assert LeadingSpaces(j) == 0 && TrailingSpaces(j) == 0;
    assert j[0..|j|] == j;
  }

  /** A character other than the space that no word holds is not in their
      join. */
  lemma {:induction false} JoinWordsAvoid(ws: seq<string>, c: char)
    requires c != ' ' && forall i :: 0 <= i < |ws| ==> c !in ws[i]
    ensures c !in Join(" ", ws)
  {
    if |ws| > 1 {
      JoinWordsAvoid(ws[1..], c);
      assert Join(" ", ws) == ws[0] + " " + Join(" ", ws[1..]);
    }
  }

  /** `s.split(sep)` for a one-character separator: the pieces between the
      separators, empty pieces included. */
  function SplitOn(s: string, sep: char): (parts: seq<string>)
    ensures parts != []
    ensures sep !in s ==> parts == [s]
  {
    if s == [] then [""]
    else
      var rest := SplitOn(s[1..], sep);
      if s[0] == sep then [""] + rest
      else
        assert sep !in s ==> sep !in s[1..] && s == [s[0]] + s[1..];
        [[s[0]] + rest[0]] + rest[1..]
  }

  /** There is one more piece than there are separators, and no piece holds
      a separator. */
  lemma {:induction false} SplitOnPieces(s: string, sep: char)
    ensures |SplitOn(s, sep)| == multiset(s)[sep] + 1
    ensures forall i :: 0 <= i < |SplitOn(s, sep)| ==> sep !in SplitOn(s, sep)[i]
  {
    if s != [] {
      SplitOnPieces(s[1..], sep);
      assert s == [s[0]] + s[1..];
      assert multiset(s) == multiset{s[0]} + multiset(s[1..]);
    }
  }

  /** Splitting undoes joining: the pieces joined with the separator give
      back the string. */
  lemma {:induction false} JoinSplitOn(s: string, sep: char)
    ensures Join([sep], SplitOn(s, sep)) == s
  {
    if s != [] {
      JoinSplitOn(s[1..], sep);
      assert s == [s[0]] + s[1..];
      SplitOnCons(s[0], s[1..], sep);
      JoinCons(s[0], sep, SplitOn(s[1..], sep), s[1..]);
    }
  }

  lemma JoinCons(c: char, sep: char, rest: seq<string>, t: string)
    requires rest != [] && Join([sep], rest) == t
    ensures Join([sep], if c == sep then [""] + rest else [[c] + rest[0]] + rest[1..]) == [c] + t
  {
    if c == sep {
      assert ([""] + rest)[1..] == rest;
    } else {
      var parts := [[c] + rest[0]] + rest[1..];
      if |rest| > 1 {
        assert parts[1..] == rest[1..];
        assert t == rest[0] + [sep] + Join([sep], rest[1..]);
      }
    }
  }

  /** Joining pieces that hold no separator and splitting again gives the
      pieces back. */
  lemma {:induction false} SplitOnJoin(parts: seq<string>, sep: char)
    requires parts != []
    requires forall i :: 0 <= i < |parts| ==> sep !in parts[i]
    ensures SplitOn(Join([sep], parts), sep) == parts
  {
    if |parts| > 1 {
      SplitOnJoin(parts[1..], sep);
      SplitOnAround(parts[0], sep, Join([sep], parts[1..]));
      assert parts == [parts[0]] + parts[1..];
    }
  }

  /** A separator between two pieces splits them apart. */
  lemma {:induction false} SplitOnAround(a: string, sep: char, b: string)
    ensures SplitOn(a + [sep] + b, sep) == SplitOn(a, sep) + SplitOn(b, sep)
  {
    if a == [] {
      AroundEmpty(sep, b);
    } else {
      SplitOnAround(a[1..], sep, b);
      AroundStep(a, sep, b);
    }
  }

  lemma AroundEmpty(sep: char, b: string)
    ensures SplitOn([] + [sep] + b, sep) == SplitOn([], sep) + SplitOn(b, sep)
  {
    assert [] + [sep] + b == [sep] + b;
    assert ([sep] + b)[1..] == b;
  }

  lemma {:induction false} AroundStep(a: string, sep: char, b: string)
    requires a != []
    requires SplitOn(a[1..] + [sep] + b, sep) == SplitOn(a[1..], sep) + SplitOn(b, sep)
    ensures SplitOn(a + [sep] + b, sep) == SplitOn(a, sep) + SplitOn(b, sep)
  {
    var c, t := a[0], a[1..] + [sep] + b;
    assert a + [sep] + b == [c] + t && a == [c] + a[1..];
    SplitOnCons(c, t, sep);
    SplitOnCons(c, a[1..], sep);
    ConsPieces(c, sep, SplitOn(t, sep), SplitOn(a[1..], sep), SplitOn(b, sep));
  }

  lemma ConsPieces(c: char, sep: char, r: seq<string>, ra: seq<string>, rb: seq<string>)
    requires ra != [] && r == ra + rb
    ensures (if c == sep then [""] + r else [[c] + r[0]] + r[1..])
         == (if c == sep then [""] + ra else [[c] + ra[0]] + ra[1..]) + rb
  {
    if c != sep {
      assert r[0] == ra[0] && r[1..] == ra[1..] + rb;
    }
  }

  /** One step of splitting: the first character opens a new piece or joins
      the first one. */
  lemma SplitOnCons(c: char, t: string, sep: char)
    ensures SplitOn([c] + t, sep)
         == if c == sep then [""] + SplitOn(t, sep)
            else [[c] + SplitOn(t, sep)[0]] + SplitOn(t, sep)[1..]
  {
    assert ([c] + t)[1..] == t;
  }

  /** Two decimal digits, zero-padded, as `%02d` writes them. */
  function Pad2(n: nat): (s: string)
    requires n < 100
    ensures |s| == 2 && IsDigit(s[0]) && IsDigit(s[1])
  {
    [DigitChar(n / 10), DigitChar(n % 10)]
  }

  /** Four decimal digits, zero-padded, as `%04d` writes them. */
  function Pad4(n: nat): (s: string)
    requires n < 10000
    ensures |s| == 4 && forall k :: 0 <= k < 4 ==> IsDigit(s[k])
  {
    Pad2(n / 100) + Pad2(n % 100)
  }

  predicate StartsWith(s: string, prefix: string) {
    |prefix| <= |s| && s[..|prefix|] == prefix
  }

  /** `sub in s`. */
  predicate Contains(s: string, sub: string)
    decreases |s|
  {
    StartsWith(s, sub) || (s != [] && Contains(s[1..], sub))
  }

  /** `s.replace(pat, '')`: every non-overlapping occurrence of `pat`, scanned
      from the left, is deleted. */
  function RemoveAll(s: string, pat: string): (r: string)
    requires pat != []
    decreases |s|
    ensures |r| <= |s|
    ensures |pat| == 1 ==> pat[0] !in r
    ensures forall k :: 0 <= k < |r| ==> r[k] in s
  {
    if s == [] then []
    else if StartsWith(s, pat) then
      RemoveAll(s[|pat|..], pat)
    else
      var rest := RemoveAll(s[1..], pat);
      assert forall k :: 0 <= k < |rest| ==> rest[k] in s by {
        forall k | 0 <= k < |rest| ensures rest[k] in s {
          assert rest[k] in s[1..];
        }
      }
      [s[0]] + rest
  }

  /** Deleting a pattern whose first character does not occur in `a` leaves
      `a` in front untouched. */
  lemma {:induction false} RemoveAllKeepsPrefix(a: string, b: string, pat: string)
    requires pat != [] && pat[0] !in a
    ensures RemoveAll(a + b, pat) == a + RemoveAll(b, pat)
  {
    if a != [] {
      var s := a + b;
      assert !StartsWith(s, pat) by { assert s[0] == a[0]; }
      assert s[1..] == a[1..] + b;
      RemoveAllKeepsPrefix(a[1..], b, pat);
    } else {
      assert a + b == b;
    }
  }

  /** `c.lower()` on the capitals A-Z, U+00C0-U+00DE but U+00D7, U+0391-U+03A9
      but U+03A2 (always to the medial small sigma: the final-sigma rule is
      not modelled) and U+0400-U+042F; every other character is kept. */
  function LowerChar(c: char): (l: char)
    ensures 'A' <= c <= 'Z' ==> l as int == c as int + 32
    ensures 'a' <= c <= 'z' ==> l == c
    ensures '\U{0410}' <= c <= '\U{042F}' ==> l as int == c as int + 32
  {
    if 'A' <= c <= 'Z' then (c as int + 32) as char
    else if '\U{00C0}' <= c <= '\U{00DE}' && c != '\U{00D7}' then (c as int + 32) as char
    else if '\U{0391}' <= c <= '\U{03A9}' && c != '\U{03A2}' then (c as int + 32) as char
    else if '\U{0400}' <= c <= '\U{040F}' then (c as int + 80) as char
    else if '\U{0410}' <= c <= '\U{042F}' then (c as int + 32) as char
    else c
  }

  /** `s.lower()`. */
  function Lower(s: string): (r: string)
    ensures |r| == |s|
    ensures forall k :: 0 <= k < |s| ==> r[k] == LowerChar(s[k])
  {
    if s == [] then [] else [LowerChar(s[0])] + Lower(s[1..])
  }

  /** Python's `a <= b` on strings: code point by code point, a proper
      prefix first. */
  predicate LexLe(a: string, b: string) {
    a == [] || (b != [] && (a[0] < b[0] || (a[0] == b[0] && LexLe(a[1..], b[1..]))))
  }

  lemma {:induction false} LexTotal(a: string, b: string)
    ensures LexLe(a, b) || LexLe(b, a)
  {
    if a != [] && b != [] && a[0] == b[0] {
      LexTotal(a[1..], b[1..]);
    }
  }

  lemma {:induction false} LexTransitive(a: string, b: string, c: string)
    requires LexLe(a, b) && LexLe(b, c)
    ensures LexLe(a, c)
  {
    if a != [] && b != [] && c != [] && a[0] == b[0] == c[0] {
      LexTransitive(a[1..], b[1..], c[1..]);
    }
  }

  lemma {:induction false} LexAntisymmetric(a: string, b: string)
    requires LexLe(a, b) && LexLe(b, a)
    ensures a == b
  {
    if a != [] && b != [] {
      LexAntisymmetric(a[1..], b[1..]);
      assert a == [a[0]] + a[1..] && b == [b[0]] + b[1..];
    }
  }

  /** Comparing two strings that start with blocks of equal length: the
      blocks decide unless they are equal. */
  lemma {:induction false} LexAppend(x: string, y: string, s: string, t: string)
    requires |x| == |y|
    ensures LexLe(x + s, y + t) == if x == y then LexLe(s, t) else LexLe(x, y)
  {
    if x != [] {
      assert (x + s)[1..] == x[1..] + s && (y + t)[1..] == y[1..] + t;
      LexAppend(x[1..], y[1..], s, t);
      if x[0] == y[0] {
        assert x == y <==> x[1..] == y[1..] by {
          assert x == [x[0]] + x[1..] && y == [y[0]] + y[1..];
        }
      }
    } else {
      assert x + s == s && y + t == t;
    }
  }

  // ----- integers ---------------------------------------------------------

  predicate IsDigit(c: char) {
    '0' <= c <= '9'
  }

  function DigitValue(c: char): (d: nat)
    requires IsDigit(c)
    ensures d < 10
  {
    c as int - '0' as int
  }

  function DigitChar(d: nat): (c: char)
    requires d < 10
    ensures IsDigit(c) && DigitValue(c) == d
  {
    (d + '0' as int) as char
  }

  /** Digits with single underscores between them: what `int()` accepts after
      the sign. */
  predicate IsDigitGroups(s: string) {
    && s != []
    && IsDigit(s[0]) && IsDigit(s[|s| - 1])
    && (forall k :: 0 <= k < |s| ==> IsDigit(s[k]) || s[k] == '_')
    && (forall k :: 0 <= k < |s| - 1 ==> s[k] == '_' ==> s[k + 1] != '_')
  }

  /** The value of a run of digits, underscores ignored. */
  function DigitsValue(s: string): nat
    requires forall k :: 0 <= k < |s| ==> IsDigit(s[k]) || s[k] == '_'
  {
    if s == [] then 0
    else if s[|s| - 1] == '_' then DigitsValue(s[..|s| - 1])
    else 10 * DigitsValue(s[..|s| - 1]) + DigitValue(s[|s| - 1])
  }

  /** `int(t)` on a token that has already been stripped. */
  function ParseIntToken(t: string): Option<int> {
    if t != [] && (t[0] == '-' || t[0] == '+') then
      if IsDigitGroups(t[1..]) then
        Some(if t[0] == '-' then -(DigitsValue(t[1..]) as int) else DigitsValue(t[1..]))
      else None
    else if IsDigitGroups(t) then Some(DigitsValue(t))
    else None
  }

  /** The information separators U+001C-U+001F. `str.isspace` accepts them,
      but `int()` strips only the ASCII whitespace " \t\n\v\f\r" and the
      non-ASCII whitespace, so a separator stays in the text and `int()`
      fails on it. */
  predicate IsSeparator(c: char) {
    '\U{001C}' <= c <= '\U{001F}'
  }

  predicate HasSeparator(s: string) {
    exists k :: 0 <= k < |s| && IsSeparator(s[k])
  }

  /** `int(s)`: surrounding whitespace other than the separators is allowed;
      `None` stands for the `ValueError` Python raises. */
  function ParseInt(s: string): (r: Option<int>)
    ensures AllSpace(s) ==> r == None
    ensures HasSeparator(s) ==> r == None
  {
    if HasSeparator(s) then None else ParseIntToken(Strip(s))
  }

  /** A separator next to a number makes `int()` fail, while the other
      whitespace around it is stripped. */
  lemma SeparatorRefused()
    ensures ParseInt("\U{001C}5") == None
    ensures ParseInt("5\U{001F}") == None
    ensures ParseInt(" 5\n") == Some(5)
    ensures ParseInt("\U{00A0}5\U{3000}") == Some(5)
  {
    assert HasSeparator("\U{001C}5") by { assert IsSeparator("\U{001C}5"[0]); }
    assert HasSeparator("5\U{001F}") by { assert IsSeparator("5\U{001F}"[1]); }
    assert Strip(" 5\n") == "5";
    assert Strip("\U{00A0}5\U{3000}") == "5";
  }

  /** `str(n)` for a natural number. */
  function ShowNat(n: nat): (s: string)
    ensures s != [] && forall k :: 0 <= k < |s| ==> IsDigit(s[k])
  {
    if n < 10 then [DigitChar(n)] else ShowNat(n / 10) + [DigitChar(n % 10)]
  }

  /** `str(n)`. */
  function ShowInt(n: int): (s: string)
    ensures s != []
  {
    if n < 0 then "-" + ShowNat(-n) else ShowNat(n)
  }

  /** `str(n)` is a single word of digits, with a minus sign in front when
      `n` is negative. */
  lemma ShowIntChars(n: int)
    ensures IsWord(ShowInt(n))
    ensures forall k :: 0 <= k < |ShowInt(n)| ==> IsDigit(ShowInt(n)[k]) || ShowInt(n)[k] == '-'
  {
    var s := ShowInt(n);
    if n < 0 {
      var digits := ShowNat(-n);
      assert s == "-" + digits;
      assert forall k :: 1 <= k < |s| ==> s[k] == digits[k - 1];
    }
  }

  lemma {:induction false} ShowNatValue(n: nat)
    ensures IsDigitGroups(ShowNat(n)) && DigitsValue(ShowNat(n)) == n
  {
    var s := ShowNat(n);
    if n >= 10 {
      ShowNatValue(n / 10);
      assert s[..|s| - 1] == ShowNat(n / 10);
    }
  }

  /** `int(str(n)) == n`: the decimal rendering of an integer parses back to
      that integer. */
  lemma ParseShowInt(n: int)
    ensures ParseInt(ShowInt(n)) == Some(n)
  {
    var m: nat := if n < 0 then -n else n;
    var digits := ShowNat(m);
    ShowNatValue(m);
    var s := ShowInt(n);
    assert NoSpace(s) by {
      forall k | 0 <= k < |s| ensures !IsSpace(s[k]) {
        if n < 0 && k > 0 { assert s[k] == digits[k - 1]; }
      }
    }
    assert Strip(s) == s;
    if n < 0 {
      assert s == "-" + digits;
      assert s[1..] == digits;
      assert ParseIntToken(s) == Some(-(m as int));
    } else {
      assert s == digits;
      assert s[0] != '-' && s[0] != '+';
    }
  }
}
