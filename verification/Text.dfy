/** Text as the standard library sees it: UTF-8 lengths, whitespace words, lines, joined lines. */
module Text {
  import Keyed

  newtype Byte = b: int | 0 <= b < 256

  // ---------------------------------------------------------------- UTF-8

  function Utf8Char(c: char): seq<Byte> {
    var n := c as int;
    if n < 0x80 then [n as Byte]
    else if n < 0x800 then [(0xC0 + n / 0x40) as Byte, (0x80 + n % 0x40) as Byte]
    else if n < 0x10000 then
      [(0xE0 + n / 0x1000) as Byte, (0x80 + n / 0x40 % 0x40) as Byte, (0x80 + n % 0x40) as Byte]
    else [(0xF0 + n / 0x40000) as Byte, (0x80 + n / 0x1000 % 0x40) as Byte,
          (0x80 + n / 0x40 % 0x40) as Byte, (0x80 + n % 0x40) as Byte]
  }

  function Utf8(s: string): seq<Byte> {
    if s == "" then [] else Utf8Char(s[0]) + Utf8(s[1..])
  }

  lemma {:induction false} Utf8Append(a: string, b: string)
    ensures Utf8(a + b) == Utf8(a) + Utf8(b)
  {
    if a == "" {
      assert a + b == b;
    } else {
      assert (a + b)[0] == a[0] && (a + b)[1..] == a[1..] + b;
      Utf8Append(a[1..], b);
    }
  }

  /** How many bytes the lead byte of a character announces (section 3 of RFC 3629). */
  function Announced(lead: Byte): nat {
    if lead < 0x80 then 1 else if lead < 0xE0 then 2 else if lead < 0xF0 then 3 else 4
  }

  /** The bits of a continuation byte. */
  function Low6(b: Byte): nat { b as nat % 0x40 }

  /** The code point the first bytes stand for. */
  function CodePoint(bs: seq<Byte>): nat
    requires bs != [] && Announced(bs[0]) <= |bs|
  {
    match Announced(bs[0])
    case 1 => bs[0] as nat
    case 2 => bs[0] as nat % 0x20 * 0x40 + Low6(bs[1])
    case 3 => bs[0] as nat % 0x10 * 0x1000 + Low6(bs[1]) * 0x40 + Low6(bs[2])
    case _ => bs[0] as nat % 0x08 * 0x40000 + Low6(bs[1]) * 0x1000 + Low6(bs[2]) * 0x40 + Low6(bs[3])
  }

  /** The code points of a byte string, read from the front; `None` when it breaks off. */
  function Decode(bs: seq<Byte>): Keyed.Option<seq<nat>>
    decreases |bs|
  {
    if bs == [] then Keyed.Some([])
    else if |bs| < Announced(bs[0]) then Keyed.None
    else match Decode(bs[Announced(bs[0])..])
         case None => Keyed.None
         case Some(rest) => Keyed.Some([CodePoint(bs)] + rest)
  }

  function CodePoints(s: string): seq<nat> {
    seq(|s|, i requires 0 <= i < |s| => s[i] as nat)
  }

  /** The bytes of a character announce their number, are continuation bytes after the first, and
      stand for that character, whatever follows. */
  lemma Utf8CharDecodes(c: char, rest: seq<Byte>)
    ensures var bs := Utf8Char(c);
            && 1 <= |bs| <= 4 && Announced(bs[0]) == |bs| && CodePoint(bs + rest) == c as nat
            && forall i :: 1 <= i < |bs| ==> 0x80 <= bs[i] < 0xC0
  {
    var n := c as nat;
    if n < 0x80 {
    } else if n < 0x800 {
      TwoBytes(c, rest);
    } else if n < 0x10000 {
      ThreeBytes(c, rest);
    } else {
      FourBytes(c, rest);
    }
  }

  lemma TwoBytes(c: char, rest: seq<Byte>)
    requires 0x80 <= c as nat < 0x800
    ensures |Utf8Char(c)| == 2 && Announced(Utf8Char(c)[0]) == 2 && CodePoint(Utf8Char(c) + rest) == c as nat
    ensures 0x80 <= Utf8Char(c)[1] < 0xC0
  {
    var n := c as nat;
    Mark(n / 0x40);
    Mark(n % 0x40);
  }

  lemma ThreeBytes(c: char, rest: seq<Byte>)
    requires 0x800 <= c as nat < 0x10000
    ensures |Utf8Char(c)| == 3 && Announced(Utf8Char(c)[0]) == 3 && CodePoint(Utf8Char(c) + rest) == c as nat
    ensures 0x80 <= Utf8Char(c)[1] < 0xC0 && 0x80 <= Utf8Char(c)[2] < 0xC0
  {
    var n := c as nat;
    Mark(n / 0x1000);
    Mark(n / 0x40 % 0x40);
    Mark(n % 0x40);
    Digits(n);
  }

  lemma FourBytes(c: char, rest: seq<Byte>)
    requires 0x10000 <= c as nat
    ensures |Utf8Char(c)| == 4 && Announced(Utf8Char(c)[0]) == 4 && CodePoint(Utf8Char(c) + rest) == c as nat
    ensures 0x80 <= Utf8Char(c)[1] < 0xC0 && 0x80 <= Utf8Char(c)[2] < 0xC0 && 0x80 <= Utf8Char(c)[3] < 0xC0
  {
    var n := c as nat;
    Mark(n / 0x40000);
    Mark(n / 0x1000 % 0x40);
    Mark(n / 0x40 % 0x40);
    Mark(n % 0x40);
    Digits(n);
  }

  /** The marker bits in front do not disturb the others. */
  lemma Mark(bits: nat)
    ensures bits < 0x40 ==> (0x80 + bits) % 0x40 == bits
    ensures bits < 0x20 ==> (0xC0 + bits) % 0x20 == bits
    ensures bits < 0x10 ==> (0xE0 + bits) % 0x10 == bits
    ensures bits < 0x08 ==> (0xF0 + bits) % 0x08 == bits
  {
  }

  /** A number is put together again from its groups of six bits. */
  lemma Digits(n: nat)
    ensures n == n / 0x1000 * 0x1000 + n / 0x40 % 0x40 * 0x40 + n % 0x40
    ensures n == n / 0x40000 * 0x40000 + n / 0x1000 % 0x40 * 0x1000 + n / 0x40 % 0x40 * 0x40 + n % 0x40
  {
    assert n / 0x40 / 0x40 == n / 0x1000;
    assert n / 0x1000 / 0x40 == n / 0x40000;
  }

  /** Encoding loses nothing: the bytes of a text decode to its characters, in order. */
  lemma {:induction false} Utf8RoundTrip(s: string)
    ensures Decode(Utf8(s)) == Keyed.Some(CodePoints(s))
  {
    if s == "" {
    } else {
      var bs, rest := Utf8Char(s[0]), Utf8(s[1..]);
      Utf8RoundTrip(s[1..]);
      Utf8CharDecodes(s[0], rest);
      assert (bs + rest)[|bs|..] == rest;
      assert CodePoints(s) == [s[0] as nat] + CodePoints(s[1..]);
    }
  }

  // ---------------------------------------------------------------- words

  /** The Unicode White_Space property. */
  predicate IsSpace(c: char) {
    var n := c as int;
    0x09 <= n <= 0x0D || n == 0x20 || n == 0x85 || n == 0xA0 || n == 0x1680 || 0x2000 <= n <= 0x200A
    || n == 0x2028 || n == 0x2029 || n == 0x202F || n == 0x205F || n == 0x3000
  }

  /** The 25 characters of that property, listed. */
  lemma WhiteSpaceIs(c: char)
    ensures IsSpace(c) <==> c as int in {
              0x0009, 0x000A, 0x000B, 0x000C, 0x000D, 0x0020, 0x0085, 0x00A0, 0x1680, 0x2000, 0x2001, 0x2002, 0x2003,
              0x2004, 0x2005, 0x2006, 0x2007, 0x2008, 0x2009, 0x200A, 0x2028, 0x2029, 0x202F, 0x205F, 0x3000}
  {
  }

  /** The whitespace-delimited words of `s`, in order. */
  function Words(s: string): (ws: seq<string>)
    ensures s != "" && !IsSpace(s[|s| - 1]) ==> ws != []
  {
    if s == "" then []
    else
      var init, c := s[..|s| - 1], s[|s| - 1];
      var before := Words(init);
      if IsSpace(c) then before
      else if init != "" && !IsSpace(init[|init| - 1]) then
        before[..|before| - 1] + [before[|before| - 1] + [c]]
      else before + [[c]]
  }

  function WordCount(s: string): nat { |Words(s)| }

  /** `trim` leaves nothing. */
  predicate Blank(s: string) {
    forall i :: 0 <= i < |s| ==> IsSpace(s[i])
  }

  lemma {:induction false} BlankHasNoWords(s: string)
    ensures Blank(s) <==> Words(s) == []
  {
    if s == "" {
    } else {
      var init := s[..|s| - 1];
      BlankHasNoWords(init);
      assert s == init + [s[|s| - 1]];
      assert Blank(s) <==> Blank(init) && IsSpace(s[|s| - 1]);
    }
  }

  /** `d` appended to a text whose last word list is `ws`; `wordOpen` tells whether a word is open. */
  function Extend(ws: seq<string>, wordOpen: bool, d: char): seq<string>
    requires wordOpen ==> ws != []
  {
    if IsSpace(d) then ws
    else if wordOpen then ws[..|ws| - 1] + [ws[|ws| - 1] + [d]]
    else ws + [[d]]
  }

  predicate WordOpen(s: string) {
    s != "" && !IsSpace(s[|s| - 1])
  }

  lemma WordsEnd(s: string, d: char)
    ensures Words(s + [d]) == Extend(Words(s), WordOpen(s), d)
  {
    assert (s + [d])[..|s|] == s;
  }

  lemma ExtendAfter(a: seq<string>, b: seq<string>, wordOpen: bool, d: char)
    requires wordOpen ==> b != []
    ensures Extend(a + b, wordOpen, d) == a + Extend(b, wordOpen, d)
  {
  }

  /** Words never span a whitespace character. */
  lemma {:induction false} WordsSplit(a: string, c: char, b: string)
    requires IsSpace(c)
    ensures Words(a + [c] + b) == Words(a) + Words(b)
  {
    if b == "" {
      assert a + [c] + b == a + [c];
      WordsEnd(a, c);
    } else {
      var b', d := b[..|b| - 1], b[|b| - 1];
      var s' := a + [c] + b';
      assert b == b' + [d] && a + [c] + b == s' + [d];
      WordsSplit(a, c, b');
      WordsEnd(b', d);
      WordsEnd(s', d);
      assert WordOpen(s') == WordOpen(b');
      ExtendAfter(Words(a), Words(b'), WordOpen(b'), d);
    }
  }

  /** A text without whitespace is one word: with `WordsSplit`, this decides the words of every text. */
  lemma {:induction false} UnbrokenIsOneWord(w: string)
    requires w != "" && forall i :: 0 <= i < |w| ==> !IsSpace(w[i])
    ensures Words(w) == [w]
  {
    var init, c := w[..|w| - 1], w[|w| - 1];
    assert w == init + [c];
    WordsEnd(init, c);
    if init != "" {
      UnbrokenIsOneWord(init);
    }
  }

  // ---------------------------------------------------------------- lines

  /** Drop a final carriage return. */
  function StripCr(s: string): string {
    if s != "" && s[|s| - 1] == '\r' then s[..|s| - 1] else s
  }

  /** The lines of `text`: a line feed, with a carriage return just before it, ends a line; the
      last line needs no ending. */
  function Lines(text: string): seq<string> {
    LinesFrom("", text)
  }

  /** Lines of `cur + rest`, where `cur` is the part of the current line already read. */
  function LinesFrom(cur: string, rest: string): seq<string>
    decreases |rest|
  {
    if rest == "" then (if cur == "" then [] else [cur])
    else if rest[0] == '\n' then [StripCr(cur)] + LinesFrom("", rest[1..])
    else LinesFrom(cur + [rest[0]], rest[1..])
  }

  function Join(ls: seq<string>): string {
    if ls == [] then ""
    else if |ls| == 1 then ls[0]
    else ls[0] + ['\n'] + Join(ls[1..])
  }

  // ---------------------------------------------------------------- splitting and joining

  /** No line feed inside. */
  predicate OneLine(s: string) {
    forall i :: 0 <= i < |s| ==> s[i] != '\n'
  }

  lemma {:induction false} LinesFromFeed(cur: string, line: string, rest: string)
    requires OneLine(line)
    ensures LinesFrom(cur, line + ['\n'] + rest) == [StripCr(cur + line)] + Lines(rest)
    decreases |line|
  {
    var text := line + ['\n'] + rest;
    if line == "" {
      assert text[0] == '\n' && text[1..] == rest && cur + line == cur;
    } else {
      var tail := line[1..];
      assert text[0] == line[0] && text[1..] == tail + ['\n'] + rest;
      assert cur + line == (cur + [line[0]]) + tail;
      LinesFromFeed(cur + [line[0]], tail, rest);
    }
  }

  /** A line ends at its line feed and loses one carriage return before it. */
  lemma LinesFeed(line: string, rest: string)
    requires OneLine(line)
    ensures Lines(line + ['\n'] + rest) == [StripCr(line)] + Lines(rest)
  {
    LinesFromFeed("", line, rest);
    assert "" + line == line;
  }

  lemma {:induction false} LinesFromLast(cur: string, line: string)
    requires OneLine(line)
    ensures LinesFrom(cur, line) == if cur + line == "" then [] else [cur + line]
    decreases |line|
  {
    if line == "" {
      assert cur + line == cur;
    } else {
      assert cur + line == (cur + [line[0]]) + line[1..];
      LinesFromLast(cur + [line[0]], line[1..]);
    }
  }

  /** A last line without a line feed is kept as it is, a carriage return at its end included; with
      `LinesFeed`, this decides the lines of every text. */
  lemma LinesLast(line: string)
    requires OneLine(line)
    ensures Lines(line) == if line == "" then [] else [line]
  {
    LinesFromLast("", line);
    assert "" + line == line;
  }

  lemma StripCrIs(s: string)
    ensures StripCr(s + ['\r']) == s
    ensures (s == "" || s[|s| - 1] != '\r') ==> StripCr(s) == s
  {
  }

  predicate PlainLines(ls: seq<string>) {
    forall i :: 0 <= i < |ls| ==> OneLine(ls[i]) && (ls[i] == "" || ls[i][|ls[i]| - 1] != '\r')
  }

  /** Joined with line feeds and ended with one, the lines come back, in order and unchanged. */
  lemma {:induction false} LinesOfJoin(ls: seq<string>)
    requires ls != [] && PlainLines(ls)
    ensures Lines(Join(ls) + ['\n']) == ls
  {
    if |ls| == 1 {
      assert Join(ls) + ['\n'] == ls[0] + ['\n'] + "";
      LinesFeed(ls[0], "");
      LinesLast("");
      assert [ls[0]] + [] == ls;
    } else {
      var tail := ls[1..];
      assert Join(ls) + ['\n'] == ls[0] + ['\n'] + (Join(tail) + ['\n']);
      LinesFeed(ls[0], Join(tail) + ['\n']);
      LinesOfJoin(tail);
      assert [ls[0]] + tail == ls;
    }
  }

  /** Split at every line feed, and only there. */
  function Split(text: string): seq<string>
    ensures Split(text) != []
  {
    if text == "" then [""]
    else
      var rest := Split(text[1..]);
      if text[0] == '\n' then [""] + rest else [[text[0]] + rest[0]] + rest[1..]
  }

  lemma {:induction false} SplitFeed(line: string, rest: string)
    requires OneLine(line)
    ensures Split(line + ['\n'] + rest) == [line] + Split(rest)
    ensures Split(line) == [line]
  {
    var text := line + ['\n'] + rest;
    if line == "" {
      assert text[0] == '\n' && text[1..] == rest;
    } else {
      assert text[0] == line[0] && text[1..] == line[1..] + ['\n'] + rest;
      SplitFeed(line[1..], rest);
      assert [line[0]] + line[1..] == line;
    }
  }

  /** A joined text is its lines: splitting it at the line feeds gives them back, whatever else they
      hold. */
  lemma {:induction false} SplitOfJoin(ls: seq<string>)
    requires ls != [] && forall i :: 0 <= i < |ls| ==> OneLine(ls[i])
    ensures Split(Join(ls)) == ls
  {
    if |ls| == 1 {
      SplitFeed(ls[0], "");
    } else {
      SplitFeed(ls[0], Join(ls[1..]));
      SplitOfJoin(ls[1..]);
      assert [ls[0]] + ls[1..] == ls;
    }
  }

  lemma {:induction false} LinesAreOneLine(cur: string, rest: string)
    requires OneLine(cur)
    ensures forall i :: 0 <= i < |LinesFrom(cur, rest)| ==> OneLine(LinesFrom(cur, rest)[i])
    decreases |rest|
  {
    if rest == "" {
    } else if rest[0] == '\n' {
      LinesAreOneLine("", rest[1..]);
    } else {
      LinesAreOneLine(cur + [rest[0]], rest[1..]);
    }
  }

  /** Total words of the lines `ls[lo..hi]`. */
  function LineWords(ls: seq<string>, lo: nat, hi: nat): nat
    requires lo <= hi <= |ls|
    decreases hi
  {
    if lo == hi then 0 else LineWords(ls, lo, hi - 1) + WordCount(ls[hi - 1])
  }

  lemma {:induction false} LineWordsSplit(ls: seq<string>, lo: nat, mid: nat, hi: nat)
    requires lo <= mid <= hi <= |ls|
    ensures LineWords(ls, lo, hi) == LineWords(ls, lo, mid) + LineWords(ls, mid, hi)
    decreases hi
  {
    if mid < hi {
      LineWordsSplit(ls, lo, mid, hi - 1);
    }
  }

  lemma {:induction false} LineWordsOf(a: seq<string>, b: seq<string>, lo: nat, hi: nat, d: nat)
    requires lo <= hi <= |a| && hi + d <= |b|
    requires forall i :: lo <= i < hi ==> a[i] == b[i + d]
    ensures LineWords(a, lo, hi) == LineWords(b, lo + d, hi + d)
    decreases hi
  {
    if lo < hi {
      LineWordsOf(a, b, lo, hi - 1, d);
    }
  }

  lemma LineWordsOne(ls: seq<string>, i: nat)
    requires i < |ls|
    ensures LineWords(ls, i, i + 1) == WordCount(ls[i])
  {
    assert LineWords(ls, i, i) == 0;
  }

  lemma {:induction false} LineWordsCons(all: seq<string>, hi: nat)
    requires 1 <= hi <= |all|
    ensures LineWords(all, 0, hi) == WordCount(all[0]) + LineWords(all[1..], 0, hi - 1)
    decreases hi
  {
    if hi == 1 {
      LineWordsOne(all, 0);
    } else {
      LineWordsCons(all, hi - 1);
      assert all[1..][hi - 2] == all[hi - 1];
    }
  }

  lemma StripCrWords(s: string)
    ensures Words(StripCr(s)) == Words(s)
  {
    if s != "" && s[|s| - 1] == '\r' {
      assert s == s[..|s| - 1] + ['\r'] + "";
      WordsSplit(s[..|s| - 1], '\r', "");
    }
  }

  /** Joining lines keeps their words: the joined text has as many words as its lines together. */
  lemma {:induction false} JoinWords(ls: seq<string>)
    ensures WordCount(Join(ls)) == LineWords(ls, 0, |ls|)
  {
    if |ls| == 1 {
      LineWordsOne(ls, 0);
    } else if |ls| > 1 {
      JoinWords(ls[1..]);
      WordsSplit(ls[0], '\n', Join(ls[1..]));
      LineWordsCons(ls, |ls|);
    }
  }

  lemma FirstLineWords(line: string, tail: string, lines: seq<string>)
    requires WordCount(tail) == LineWords(lines, 0, |lines|)
    ensures WordCount(line + ['\n'] + tail) == LineWords([StripCr(line)] + lines, 0, |lines| + 1)
  {
    var all := [StripCr(line)] + lines;
    WordsSplit(line, '\n', tail);
    StripCrWords(line);
    LineWordsCons(all, |all|);
    assert all[1..] == lines;
  }

  lemma LastLineWords(line: string, lines: seq<string>)
    requires lines == if line == "" then [] else [line]
    ensures WordCount(line) == LineWords(lines, 0, |lines|)
  {
    if line != "" {
      LineWordsOne(lines, 0);
    }
  }

  lemma {:induction false} LinesFromWords(cur: string, rest: string, text: string, lines: seq<string>)
    requires text == cur + rest && lines == LinesFrom(cur, rest)
    ensures WordCount(text) == LineWords(lines, 0, |lines|)
    decreases |rest|
  {
    if rest == "" {
      assert text == cur;
      LastLineWords(cur, lines);
    } else if rest[0] == '\n' {
      var tail := rest[1..];
      assert tail == "" + tail && text == cur + ['\n'] + tail;
      LinesFromWords("", tail, tail, LinesFrom("", tail));
      FirstLineWords(cur, tail, LinesFrom("", tail));
    } else {
      assert text == (cur + [rest[0]]) + rest[1..];
      LinesFromWords(cur + [rest[0]], rest[1..], text, lines);
    }
  }

  /** Splitting a text into lines loses no word and cuts none. */
  lemma LinesKeepWords(text: string)
    ensures WordCount(text) == LineWords(Lines(text), 0, |Lines(text)|)
  {
    assert "" + text == text;
    LinesFromWords("", text, text, Lines(text));
  }
}
