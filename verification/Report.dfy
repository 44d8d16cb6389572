/**
 The result protocol between memtester and its wrapper: the text of a report, and how it is read.
 */
module Report {

  datatype Option<+T> = None | Some(value: T)

  // ---- Numbers ----

  predicate IsDigit(c: char) {
    '0' <= c <= '9'
  }

  function Decimal(n: nat): (s: string)
    ensures |s| > 0 && forall i :: 0 <= i < |s| ==> IsDigit(s[i])
  {
    var last := ['0' + (n % 10) as char];
    if n < 10 then last else Decimal(n / 10) + last
  }

  predicate AllDigits(s: string) {
    |s| > 0 && forall i :: 0 <= i < |s| ==> IsDigit(s[i])
  }

  function Digit(c: char): nat
    requires IsDigit(c)
  {
    c as int - '0' as int
  }

  function Number(s: string): nat
    requires forall i :: 0 <= i < |s| ==> IsDigit(s[i])
  {
    if s == [] then 0 else 10 * Number(s[..|s| - 1]) + Digit(s[|s| - 1])
  }

  lemma {:induction false} NumberOfDecimal(n: nat)
    ensures Number(Decimal(n)) == n
  {
    var last := ['0' + (n % 10) as char];
    if n < 10 {
      assert Decimal(n)[..0] == [];
    } else {
      NumberOfDecimal(n / 10);
      assert Decimal(n)[..|Decimal(n)| - 1] == Decimal(n / 10);
    }
  }

  // ---- Lines and words ----

  predicate IsLineBreak(c: char) {
    c == '\n' || c == '\r' || c == '\U{000B}' || c == '\U{000C}' || c == '\U{001C}' || c == '\U{001D}' || c == '\U{001E}'
    || c == '\U{0085}' || c == '\U{2028}' || c == '\U{2029}'
  }

  predicate IsSpace(c: char) {
    IsLineBreak(c) || c == ' ' || c == '\t' || c == '\U{001F}' || c == '\U{00A0}'
  }

  /** The lines of a text; `line` is the beginning of the current one. */
  function SplitLines(s: string, line: string): seq<string> {
    if s == [] then (if line == [] then [] else [line])
    else if s[0] == '\r' && |s| > 1 && s[1] == '\n' then [line] + SplitLines(s[2..], [])
    else if IsLineBreak(s[0]) then [line] + SplitLines(s[1..], [])
    else SplitLines(s[1..], line + [s[0]])
  }

  function SplitWords(s: string, word: string): seq<string> {
    if s == [] then (if word == [] then [] else [word])
    else if IsSpace(s[0]) then (if word == [] then [] else [word]) + SplitWords(s[1..], [])
    else SplitWords(s[1..], word + [s[0]])
  }

  function Lines(s: string): seq<string> {
    SplitLines(s, [])
  }

  function Words(s: string): seq<string> {
    SplitWords(s, [])
  }

  predicate Unbroken(s: string) {
    forall i :: 0 <= i < |s| ==> !IsLineBreak(s[i])
  }

  lemma {:induction false} UnbrokenLine(s: string, rest: string, line: string)
    requires Unbroken(s)
    ensures SplitLines(s + rest, line) == SplitLines(rest, line + s)
  {
    if s == [] {
      assert s + rest == rest && line + s == line;
    } else {
      assert !IsLineBreak(s[0]);
      assert (s + rest)[1..] == s[1..] + rest && (s + rest)[0] == s[0];
      UnbrokenLine(s[1..], rest, line + [s[0]]);
      assert line + [s[0]] + s[1..] == line + s;
    }
  }

  lemma {:induction false} UnspacedWord(s: string, rest: string, word: string)
    requires forall i :: 0 <= i < |s| ==> !IsSpace(s[i])
    ensures SplitWords(s + rest, word) == SplitWords(rest, word + s)
  {
    if s == [] {
      assert s + rest == rest && word + s == word;
    } else {
      assert (s + rest)[1..] == s[1..] + rest && (s + rest)[0] == s[0];
      UnspacedWord(s[1..], rest, word + [s[0]]);
      assert word + [s[0]] + s[1..] == word + s;
    }
  }

  // ---- Printing ----

  function Header(pageCount: nat): string {
    "RAMPAGE_RESULT_V1 " + Decimal(pageCount)
  }

  function BadLine(page: nat): string {
    "BAD " + Decimal(page)
  }

  const END: string := "END"

  /** The lines of the report on `pageCount` pages, before the last one. */
  function Body(pageCount: nat, bad: seq<nat>): seq<string> {
    if bad == [] then [Header(pageCount)] else Body(pageCount, bad[..|bad| - 1]) + [BadLine(bad[|bad| - 1])]
  }

  function Join(lines: seq<string>): string {
    if lines == [] then "" else Join(lines[..|lines| - 1]) + lines[|lines| - 1] + "\n"
  }

  function Print(pageCount: nat, bad: seq<nat>): string {
    Join(Body(pageCount, bad) + [END])
  }

  // ---- Reading ----

  /** The page a line reports as bad. */
  function BadPage(line: string): Option<nat> {
    var parts := Words(line);
    if |parts| == 2 && parts[0] == "BAD" && AllDigits(parts[1]) then Some(Number(parts[1])) else None
  }

  /** The first `n` lines between header and end are BAD lines for distinct pages of the batch. */
  ghost predicate GoodLines(lines: seq<string>, pageCount: nat, n: nat)
    requires n < |lines|
  {
    && (forall i :: 1 <= i <= n ==> BadPage(lines[i]).Some? && BadPage(lines[i]).value < pageCount)
    && (forall i, j :: 1 <= i < j <= n ==> BadPage(lines[i]) != BadPage(lines[j]))
  }

  /** The pages reported by the first `n` of these lines. */
  function Reported(lines: seq<string>, n: nat): set<nat>
    requires n < |lines| && forall i :: 1 <= i <= n ==> BadPage(lines[i]).Some?
  {
    set i | 1 <= i <= n :: BadPage(lines[i]).value
  }

  /** What a report has to be for the wrapper to take it. */
  ghost predicate Accepts(text: string, pageCount: nat) {
    var lines := Lines(text);
    && |lines| >= 2
    && lines[0] == Header(pageCount)
    && lines[|lines| - 1] == END
    && GoodLines(lines, pageCount, |lines| - 2)
  }

  /** The members of `pages` below `n` in ascending order. */
  function Ascending(pages: set<nat>, n: nat): seq<nat> {
    if n == 0 then [] else Ascending(pages, n - 1) + if n - 1 in pages then [n - 1] else []
  }

  /** The bad pages an acceptable report names, in ascending order. */
  ghost function Verdict(text: string, pageCount: nat): seq<nat>
    requires Accepts(text, pageCount)
  {
    Ascending(Reported(Lines(text), |Lines(text)| - 2), pageCount)
  }

  method ParseResult(text: string, pageCount: nat) returns (r: Option<seq<nat>>)
    ensures r.Some? <==> Accepts(text, pageCount)
    ensures r.Some? ==> r.value == Verdict(text, pageCount)
  {
    var lines := Lines(text);
    if |lines| < 2 || lines[0] != Header(pageCount) || lines[|lines| - 1] != END {
      return None;
    }
    var badPages: set<nat> := {};
    var i := 1;
    while i < |lines| - 1
      invariant 1 <= i <= |lines| - 1
      invariant GoodLines(lines, pageCount, i - 1)
      invariant badPages == Reported(lines, i - 1)
    {
      var page := BadPage(lines[i]);
      if page.None? {
        return None;
      }
      if page.value >= pageCount || page.value in badPages {
        return None;
      }
      badPages := badPages + {page.value};
      i := i + 1;
    }
    return Some(Ascending(badPages, pageCount));
  }

  // ---- The round trip ----

  lemma {:induction false} SplitJoined(lines: seq<string>, rest: string)
    requires forall i :: 0 <= i < |lines| ==> Unbroken(lines[i])
    ensures SplitLines(Join(lines) + rest, []) == lines + SplitLines(rest, [])
  {
    if lines == [] {
      assert Join(lines) + rest == rest;
    } else {
      var n := |lines| - 1;
      var last := lines[n];
      var more := "\n" + rest;
      assert Join(lines) + rest == Join(lines[..n]) + (last + more);
      SplitJoined(lines[..n], last + more);
      UnbrokenLine(last, more, []);
      assert [] + last == last;
      assert more[1..] == rest && more[0] == '\n';
      assert SplitLines(more, last) == [last] + SplitLines(rest, []);
      assert lines == lines[..n] + [last];
    }
  }

  lemma {:induction false} BodyAt(pageCount: nat, bad: seq<nat>, i: nat)
    requires i <= |bad|
    ensures |Body(pageCount, bad)| == |bad| + 1
    ensures Body(pageCount, bad)[i] == if i == 0 then Header(pageCount) else BadLine(bad[i - 1])
    decreases |bad|
  {
    if |bad| > 0 {
      var n := |bad| - 1;
      BodyAt(pageCount, bad[..n], if i == |bad| then 0 else i);
    }
  }

  lemma BodyUnbroken(pageCount: nat, bad: seq<nat>)
    ensures forall i :: 0 <= i < |Body(pageCount, bad)| ==> Unbroken(Body(pageCount, bad)[i])
    ensures forall i :: 0 <= i < |Body(pageCount, bad)| ==> Body(pageCount, bad)[i] != "" && Body(pageCount, bad)[i][0] != 'E'
    ensures Unbroken(END)
  {
    BodyAt(pageCount, bad, 0);
    forall i | 0 <= i < |Body(pageCount, bad)|
      ensures Unbroken(Body(pageCount, bad)[i]) && Body(pageCount, bad)[i] != "" && Body(pageCount, bad)[i][0] != 'E'
    {
      BodyAt(pageCount, bad, i);
    }
  }

  lemma LinesOfPrint(pageCount: nat, bad: seq<nat>)
    ensures Lines(Print(pageCount, bad)) == Body(pageCount, bad) + [END]
  {
    BodyUnbroken(pageCount, bad);
    var lines := Body(pageCount, bad) + [END];
    SplitJoined(lines, "");
    assert Join(lines) + "" == Join(lines);
  }

  lemma SpaceEndsWord(word: string, rest: string)
    requires word != ""
    ensures SplitWords(" " + rest, word) == [word] + SplitWords(rest, "")
  {
    assert (" " + rest)[1..] == rest;
  }

  lemma TextEndsWord(word: string)
    requires word != ""
    ensures SplitWords("", word) == [word]
  {
  }

  lemma WordsOfBadLine(page: nat)
    ensures Words(BadLine(page)) == ["BAD", Decimal(page)]
  {
    hide Decimal, SplitWords;
    var digits := Decimal(page);
    var bad := "BAD";
    assert BadLine(page) == bad + (" " + digits);
    UnspacedWord(bad, " " + digits, "");
    assert "" + bad == bad;
    SpaceEndsWord(bad, digits);
    UnspacedWord(digits, "", "");
    assert digits + "" == digits && "" + digits == digits;
    TextEndsWord(digits);
  }

  lemma BadPageOfLine(page: nat)
    ensures BadPage(BadLine(page)) == Some(page)
  {
    hide Decimal, Words, Number;
    WordsOfBadLine(page);
    NumberOfDecimal(page);
  }

  /** The pages are given in ascending order, each of them once, as memtester visits them. */
  ghost predicate Batch(pageCount: nat, bad: seq<nat>) {
    && (forall i :: 0 <= i < |bad| ==> bad[i] < pageCount)
    && (forall i, j :: 0 <= i < j < |bad| ==> bad[i] < bad[j])
  }

  function Members(bad: seq<nat>): set<nat> {
    set p | p in bad
  }

  lemma {:induction false} AscendingLocal(a: set<nat>, b: set<nat>, n: nat)
    requires forall x :: x < n ==> (x in a <==> x in b)
    ensures Ascending(a, n) == Ascending(b, n)
  {
    if n > 0 {
      AscendingLocal(a, b, n - 1);
    }
  }

  lemma {:induction false} AscendingOfSorted(bad: seq<nat>, n: nat)
    requires Batch(n, bad)
    ensures Ascending(Members(bad), n) == bad
  {
    if n > 0 {
      var all := Members(bad);
      if |bad| > 0 && bad[|bad| - 1] == n - 1 {
        var rest := bad[..|bad| - 1];
        AscendingOfSorted(rest, n - 1);
        AscendingLocal(all, Members(rest), n - 1);
        assert bad == rest + [n - 1];
      } else {
        AscendingOfSorted(bad, n - 1);
      }
    }
  }

  lemma ReportedOfPrint(pageCount: nat, bad: seq<nat>)
    requires Batch(pageCount, bad)
    ensures Accepts(Print(pageCount, bad), pageCount) && |Lines(Print(pageCount, bad))| == |bad| + 2
    ensures Reported(Lines(Print(pageCount, bad)), |bad|) == Members(bad)
  {
    LinesOfPrint(pageCount, bad);
    BodyAt(pageCount, bad, 0);
    var lines := Lines(Print(pageCount, bad));
    forall i | 1 <= i <= |bad|
      ensures lines[i] == BadLine(bad[i - 1]) && BadPage(lines[i]) == Some(bad[i - 1])
    {
      BodyAt(pageCount, bad, i);
      BadPageOfLine(bad[i - 1]);
    }
    forall p | p in bad
      ensures p in Reported(lines, |bad|)
    {
      var k :| 0 <= k < |bad| && bad[k] == p;
      assert BadPage(lines[k + 1]) == Some(p);
    }
  }

  /** Reading a printed report gives the bad pages back, in order. */
  lemma RoundTrip(pageCount: nat, bad: seq<nat>)
    requires Batch(pageCount, bad)
    ensures Accepts(Print(pageCount, bad), pageCount)
    ensures Verdict(Print(pageCount, bad), pageCount) == bad
  {
    ReportedOfPrint(pageCount, bad);
    var lines := Lines(Print(pageCount, bad));
    assert |lines| - 2 == |bad|;
    assert Reported(lines, |lines| - 2) == Members(bad);
    AscendingOfSorted(bad, pageCount);
  }

  /** A prefix of joined lines is some of the lines and a piece of the next one. */
  lemma {:induction false} PrefixOfJoined(lines: seq<string>, m: nat) returns (k: nat, piece: string)
    requires m <= |Join(lines)|
    ensures k <= |lines|
    ensures Join(lines)[..m] == Join(lines[..k]) + piece
    ensures piece == "" || (k < |lines| && piece <= lines[k])
  {
    if lines == [] {
      return 0, "";
    }
    var n := |lines| - 1;
    var before := Join(lines[..n]);
    if m <= |before| {
      k, piece := PrefixOfJoined(lines[..n], m);
      assert lines[..n][..k] == lines[..k];
      assert Join(lines)[..m] == before[..m];
    } else if m - |before| <= |lines[n]| {
      k, piece := n, lines[n][..m - |before|];
      assert Join(lines)[..m] == before + piece;
    } else {
      k, piece := |lines|, "";
      assert lines[..k] == lines;
      assert Join(lines)[..m] == Join(lines) + piece;
    }
  }

  /** A truncated report is either rejected or read as if it were complete. */
  lemma PrefixSafe(pageCount: nat, bad: seq<nat>, m: nat, expected: nat)
    requires m <= |Print(pageCount, bad)|
    requires Accepts(Print(pageCount, bad)[..m], expected)
    ensures Accepts(Print(pageCount, bad), expected)
    ensures Verdict(Print(pageCount, bad)[..m], expected) == Verdict(Print(pageCount, bad), expected)
  {
    PrefixLines(pageCount, bad, m, expected);
  }

  lemma PrefixLines(pageCount: nat, bad: seq<nat>, m: nat, expected: nat)
    requires m <= |Print(pageCount, bad)|
    requires Accepts(Print(pageCount, bad)[..m], expected)
    ensures Lines(Print(pageCount, bad)[..m]) == Lines(Print(pageCount, bad))
  {
    var lines := Body(pageCount, bad) + [END];
    var text := Print(pageCount, bad)[..m];
    BodyUnbroken(pageCount, bad);
    LinesOfPrint(pageCount, bad);
    var k, piece := PrefixOfJoined(lines, m);
    SplitJoined(lines[..k], piece);
    if piece == "" {
      assert Lines(text) == lines[..k];
      assert lines[k - 1] == END;
      assert lines[..k] == lines;
    } else {
      assert Unbroken(piece);
      UnbrokenLine(piece, "", []);
      assert piece + "" == piece && [] + piece == piece;
      assert Lines(text) == lines[..k] + [piece];
      assert piece == END && piece[0] == lines[k][0];
      assert k == |lines| - 1;
      assert lines == lines[..k] + [END];
    }
  }

  /** A report to look at: two pages, of which the second is bad. */
  lemma PrintExample()
    ensures Print(2, [1]) == "RAMPAGE_RESULT_V1 2\n" + "BAD 1\n" + "END\n"
  {
    hide Decimal, Number;
    ExampleLines();
    var lines := [Header(2), BadLine(1), END];
    assert Body(2, [1]) + [END] == lines;
    assert lines[..2] == [Header(2), BadLine(1)];
    assert lines[..2][..1] == [Header(2)];
    assert Join([Header(2)]) == Header(2) + "\n";
    assert Join(lines[..2]) == Header(2) + "\n" + BadLine(1) + "\n";
  }

  lemma ExampleLines()
    ensures Header(2) == "RAMPAGE_RESULT_V1 2" && BadLine(1) == "BAD 1" && Body(2, [1]) == [Header(2), BadLine(1)]
  {
    assert Decimal(2) == "2" && Decimal(1) == "1";
    assert [1][..0] == [];
  }

  /** Longer numbers are printed highest digit first. */
  lemma DecimalExample()
    ensures Decimal(0) == "0" && Decimal(103) == "103"
  {
    assert Decimal(1) == "1" && Decimal(10) == "10";
  }
}
