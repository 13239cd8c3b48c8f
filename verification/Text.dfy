/** Text as the program compares, splits and joins it. A `string` stands for its UTF-8 bytes,
    one character per byte, so byte order is character order. */
module Text {

  // ----- Order

  /** Strict bytewise lexicographic order. */
  predicate Less(a: string, b: string) {
    b != "" && (a == "" || a[0] < b[0] || (a[0] == b[0] && Less(a[1..], b[1..])))
  }

  predicate AtMost(a: string, b: string) {
    a == b || Less(a, b)
  }

  lemma {:induction false} LessIrreflexive(a: string)
    ensures !Less(a, a)
  {
    if a != "" {
      LessIrreflexive(a[1..]);
    }
  }

  lemma {:induction false} LessTransitive(a: string, b: string, c: string)
    requires Less(a, b) && Less(b, c)
    ensures Less(a, c)
  {
    if a != "" && a[0] == b[0] == c[0] {
      LessTransitive(a[1..], b[1..], c[1..]);
    }
  }

  lemma {:induction false} LessTotal(a: string, b: string)
    ensures a == b || Less(a, b) || Less(b, a)
  {
    if a != "" && b != "" && a[0] == b[0] {
      LessTotal(a[1..], b[1..]);
      assert a == [a[0]] + a[1..] && b == [b[0]] + b[1..];
    }
  }

  lemma LessAsymmetric(a: string, b: string)
    requires Less(a, b)
    ensures !Less(b, a) && a != b
  {
    if Less(b, a) {
      LessTransitive(a, b, a);
    }
    LessIrreflexive(a);
  }

  // ----- Splitting and joining at one separator

  /** Everything before the first `c`, or the whole text. */
  function Before(s: string, c: char): (r: string)
    ensures |r| <= |s| && r == s[..|r|] && c !in r && (|r| == |s| || s[|r|] == c)
  {
    if s == "" || s[0] == c then "" else [s[0]] + Before(s[1..], c)
  }

  /** `str::split(c)`: the pieces between separators, empty ones included. */
  function Split(s: string, c: char): (r: seq<string>)
    ensures |r| >= 1 && forall x | x in r :: c !in x
    decreases |s|
  {
    var head := Before(s, c);
    if |head| == |s| then [head] else [head] + Split(s[|head| + 1..], c)
  }

  /** `[T]::join(c)`. */
  function Join(xs: seq<string>, c: char): string {
    if xs == [] then ""
    else if |xs| == 1 then xs[0]
    else xs[0] + [c] + Join(xs[1..], c)
  }

  function NonEmpty(xs: seq<string>): (r: seq<string>)
    ensures "" !in r && forall x | x in r :: x in xs
  {
    if xs == [] then [] else (if xs[0] == "" then [] else [xs[0]]) + NonEmpty(xs[1..])
  }

  lemma BeforeAppend(x: string, t: string, c: char)
    requires c !in x && (t == "" || t[0] == c)
    ensures Before(x + t, c) == x
  {
    if x != "" {
      assert (x + t)[1..] == x[1..] + t;
      BeforeAppend(x[1..], t, c);
    }
  }

  lemma SplitWhole(x: string, c: char)
    requires c !in x
    ensures Split(x, c) == [x]
  {
    BeforeAppend(x, "", c);
    assert x + "" == x;
  }

  lemma SplitHead(x: string, t: string, c: char)
    requires c !in x
    ensures Split(x + ([c] + t), c) == [x] + Split(t, c)
  {
    var whole := x + ([c] + t);
    BeforeAppend(x, [c] + t, c);
    assert whole[|x| + 1..] == t;
  }

  predicate NoneHolds(xs: seq<string>, c: char) {
    forall x | x in xs :: c !in x
  }

  lemma NoneHoldsTail(xs: seq<string>, c: char)
    requires NoneHolds(xs, c) && xs != []
    ensures c !in xs[0] && NoneHolds(xs[1..], c)
  {
    assert xs[0] in xs && forall x | x in xs[1..] :: x in xs;
  }

  lemma SplitNext(x: string, joined: string, rest: seq<string>, c: char)
    requires c !in x && Split(joined, c) == rest
    ensures Split(x + [c] + joined, c) == [x] + rest
  {
    SplitHead(x, joined, c);
    assert x + [c] + joined == x + ([c] + joined);
  }

  /** Splitting recovers every joined list whose items avoid the separator. */
  lemma {:induction false} SplitJoin(xs: seq<string>, c: char)
    requires xs != [] && NoneHolds(xs, c)
    ensures Split(Join(xs, c), c) == xs
  {
    NoneHoldsTail(xs, c);
    if |xs| == 1 {
      SplitWhole(xs[0], c);
    } else {
      var (first, rest) := (xs[0], xs[1..]);
      SplitJoin(rest, c);
      SplitNext(first, Join(rest, c), rest, c);
      assert xs == [first] + rest && Join(xs, c) == first + [c] + Join(rest, c);
    }
  }

  /** A piece that is a component of a path of its own. */
  predicate IsComponent(piece: string) {
    piece != "" && piece != "."
  }

  predicate MentionsParent(s: string) {
    ".." in Split(s, '/')
  }

  lemma SplitStep(s: string, c: char)
    requires |Before(s, c)| < |s|
    ensures Split(s, c) == [Before(s, c)] + Split(s[|Before(s, c)| + 1..], c)
    ensures s == Before(s, c) + [c] + s[|Before(s, c)| + 1..]
  {
  }

  lemma JoinNext(first: string, rest: seq<string>, c: char)
    requires rest != []
    ensures Join([first] + rest, c) == first + [c] + Join(rest, c)
  {
    assert ([first] + rest)[1..] == rest;
  }

  /** Joining the pieces again gives the text. */
  lemma {:induction false} JoinSplit(s: string, c: char)
    ensures Join(Split(s, c), c) == s
    decreases |s|
  {
    var head := Before(s, c);
    if |head| < |s| {
      var rest := s[|head| + 1..];
      JoinSplit(rest, c);
      SplitStep(s, c);
      JoinNext(head, Split(rest, c), c);
    }
  }

  lemma {:induction false} JoinAppend(xs: seq<string>, last: string, c: char)
    requires xs != []
    ensures Join(xs + [last], c) == Join(xs, c) + ([c] + last)
  {
    if |xs| == 1 {
      assert (xs + [last])[1..] == [last];
    } else {
      JoinAppend(xs[1..], last, c);
      assert (xs + [last])[1..] == xs[1..] + [last];
    }
  }

  lemma {:induction false} NonEmptyId(xs: seq<string>)
    requires "" !in xs
    ensures NonEmpty(xs) == xs
  {
    if xs != [] {
      assert xs[0] in xs;
      NonEmptyId(xs[1..]);
    }
  }

  /** A comma list: what one side writes with `join(",")` and the other reads with
      `split(',')` followed by dropping empty items. */
  function CommaList(xs: seq<string>): string {
    Join(xs, ',')
  }

  predicate CommaFree(xs: seq<string>) {
    "" !in xs && forall x | x in xs :: ',' !in x
  }

  function CommaItems(s: string): (r: seq<string>)
    ensures CommaFree(r)
  {
    NonEmpty(Split(s, ','))
  }

  /** The reader recovers a written list exactly when no item is empty or holds a comma. */
  lemma CommaRoundTrip(xs: seq<string>)
    ensures CommaItems(CommaList(xs)) == xs <==> CommaFree(xs)
  {
    if CommaFree(xs) {
      if xs == [] {
        assert Split("", ',') == [""];
      } else {
        SplitJoin(xs, ',');
        NonEmptyId(xs);
      }
    }
  }

  // ----- Pieces of Rust's `str` used by the parsers

  predicate HasPrefix(s: string, p: string) {
    |p| <= |s| && s[..|p|] == p
  }

  predicate HasSuffix(s: string, p: string) {
    |p| <= |s| && s[|s| - |p|..] == p
  }

  predicate IsAsciiAlphanumeric(c: char) {
    '0' <= c <= '9' || 'a' <= c <= 'z' || 'A' <= c <= 'Z'
  }

  predicate IsAsciiWhitespace(c: char) {
    c == ' ' || c == '\t' || c == '\n' || c == '\r' || c as int == 12
  }

  /** `char::is_whitespace`, on ASCII. */
  predicate IsTrimmed(c: char) {
    IsAsciiWhitespace(c) || c as int == 11
  }

  function TrimStart(s: string): string {
    if s != "" && IsTrimmed(s[0]) then TrimStart(s[1..]) else s
  }

  function TrimEnd(s: string): string {
    if s != "" && IsTrimmed(s[|s| - 1]) then TrimEnd(s[..|s| - 1]) else s
  }

  function Trim(s: string): string {
    TrimEnd(TrimStart(s))
  }

  /** `str::lines()`: split at line feeds, one carriage return before each line feed dropped, and no
      final empty line. */
  function Lines(s: string): seq<string> {
    var pieces := Split(s, '\n');
    var n := |pieces| - 1;
    DropReturns(pieces[..n]) + if pieces[n] == "" then [] else [pieces[n]]
  }

  function DropReturns(lines: seq<string>): seq<string> {
    if lines == [] then [] else [DropReturn(lines[0])] + DropReturns(lines[1..])
  }

  function DropReturn(line: string): string {
    if HasSuffix(line, "\r") then line[..|line| - 1] else line
  }

  /** Maximal runs free of separator characters. */
  function Words(s: string, separator: char -> bool): (r: seq<string>)
    ensures forall x | x in r :: x != "" && forall c | c in x :: !separator(c)
    decreases |s|
  {
    if s == "" then []
    else if separator(s[0]) then Words(s[1..], separator)
    else
      var n := WordLength(s, separator);
      [s[..n]] + Words(s[n..], separator)
  }

  function WordLength(s: string, separator: char -> bool): (n: nat)
    ensures n <= |s| && (s != "" && !separator(s[0]) ==> n > 0)
    ensures forall c | c in s[..n] :: !separator(c)
  {
    if s == "" || separator(s[0]) then 0
    else
      var n := WordLength(s[1..], separator);
      assert s[..n + 1] == [s[0]] + s[1..][..n];
      n + 1
  }

  /** Replace every `from` by `to`. */
  function Replace(s: string, from: char, to: char): string {
    seq(|s|, i requires 0 <= i < |s| => if s[i] == from then to else s[i])
  }

  // ----- What words, lines and trimming find in a text put together

  predicate AllSeparate(s: string, separator: char -> bool) {
    forall c | c in s :: separator(c)
  }

  predicate NoneSeparates(s: string, separator: char -> bool) {
    forall c | c in s :: !separator(c)
  }

  /** A word ends here: at the end of the text or before a separator. */
  predicate Ends(rest: string, separator: char -> bool) {
    rest == "" || separator(rest[0])
  }

  lemma {:induction false} WordLengthOf(w: string, rest: string, separator: char -> bool)
    requires NoneSeparates(w, separator) && Ends(rest, separator)
    ensures WordLength(w + rest, separator) == |w|
  {
    if w == "" {
      assert w + rest == rest;
    } else {
      assert (w + rest)[1..] == w[1..] + rest && (w + rest)[0] in w;
      assert forall c | c in w[1..] :: c in w;
      WordLengthOf(w[1..], rest, separator);
    }
  }

  lemma {:induction false} WordsSkip(gap: string, s: string, separator: char -> bool)
    requires AllSeparate(gap, separator)
    ensures Words(gap + s, separator) == Words(s, separator)
  {
    if gap == "" {
      assert gap + s == s;
    } else {
      assert (gap + s)[1..] == gap[1..] + s && (gap + s)[0] in gap;
      assert forall c | c in gap[1..] :: c in gap;
      WordsSkip(gap[1..], s, separator);
    }
  }

  /** Between separators stands a word. */
  lemma WordsPeel(gap: string, w: string, rest: string, separator: char -> bool)
    requires AllSeparate(gap, separator) && w != "" && NoneSeparates(w, separator) && Ends(rest, separator)
    ensures Words(gap + (w + rest), separator) == [w] + Words(rest, separator)
  {
    WordsSkip(gap, w + rest, separator);
    WordLengthOf(w, rest, separator);
    assert (w + rest)[0] in w && (w + rest)[..|w|] == w && (w + rest)[|w|..] == rest;
  }

  lemma WordsNone(gap: string, separator: char -> bool)
    requires AllSeparate(gap, separator)
    ensures Words(gap, separator) == []
  {
    WordsSkip(gap, "", separator);
    assert gap + "" == gap;
  }

  lemma {:induction false} WordLengthMaximal(s: string, separator: char -> bool)
    ensures Ends(s[WordLength(s, separator)..], separator)
  {
    if s != "" && !separator(s[0]) {
      WordLengthMaximal(s[1..], separator);
      assert s[WordLength(s, separator)..] == s[1..][WordLength(s[1..], separator)..];
    }
  }

  /** And where words are found, the text is put together like that. */
  lemma {:induction false} WordsHead(s: string, separator: char -> bool) returns (gap: string, rest: string)
    requires Words(s, separator) != []
    ensures s == gap + (Words(s, separator)[0] + rest)
    ensures AllSeparate(gap, separator) && Ends(rest, separator)
    ensures Words(s, separator) == [Words(s, separator)[0]] + Words(rest, separator)
    decreases |s|
  {
    if separator(s[0]) {
      gap, rest := WordsHead(s[1..], separator);
      gap := [s[0]] + gap;
      assert s == [s[0]] + s[1..];
    } else {
      var n := WordLength(s, separator);
      WordLengthMaximal(s, separator);
      gap, rest := "", s[n..];
      assert s == gap + (s[..n] + rest);
    }
  }

  lemma {:induction false} NoWordsBlank(s: string, separator: char -> bool)
    requires Words(s, separator) == []
    ensures AllSeparate(s, separator)
  {
    if s != "" {
      NoWordsBlank(s[1..], separator);
      assert s == [s[0]] + s[1..];
    }
  }

  predicate AreWords(xs: seq<string>, separator: char -> bool) {
    forall x | x in xs :: x != "" && NoneSeparates(x, separator)
  }

  lemma AreWordsTail(xs: seq<string>, separator: char -> bool)
    requires AreWords(xs, separator) && xs != []
    ensures xs[0] != "" && NoneSeparates(xs[0], separator) && AreWords(xs[1..], separator)
  {
    assert xs[0] in xs && forall x | x in xs[1..] :: x in xs;
  }

  lemma WordsFirst(x: string, c: char, rest: string, separator: char -> bool)
    requires separator(c) && x != "" && NoneSeparates(x, separator)
    ensures Words(x, separator) == [x]
    ensures Words(x + ([c] + rest), separator) == [x] + Words(rest, separator)
  {
    WordsPeel("", x, "", separator);
    assert "" + (x + "") == x;
    WordsPeel("", x, [c] + rest, separator);
    WordsSkip([c], rest, separator);
    assert "" + (x + ([c] + rest)) == x + ([c] + rest);
  }

  /** Words joined by a separator are found again. */
  lemma {:induction false} WordsJoin(xs: seq<string>, c: char, separator: char -> bool)
    requires separator(c) && AreWords(xs, separator)
    ensures Words(Join(xs, c), separator) == xs
  {
    if xs != [] {
      AreWordsTail(xs, separator);
      var tail := Join(xs[1..], c);
      WordsFirst(xs[0], c, tail, separator);
      if |xs| > 1 {
        WordsJoin(xs[1..], c, separator);
        assert Join(xs, c) == xs[0] + ([c] + tail);
      }
    }
  }

  /** One line more in front, whether it ends in a line feed alone or after a carriage return. */
  lemma LinesPeel(line: string, text: string)
    requires '\n' !in line
    ensures Lines(line + ("\n" + text)) == [DropReturn(line)] + Lines(text)
  {
    SplitHead(line, text, '\n');
    var pieces := Split(text, '\n');
    var n := |pieces| - 1;
    assert line + ("\n" + text) == line + (['\n'] + text);
    assert ([line] + pieces)[..n + 1] == [line] + pieces[..n];
    assert ([line] + pieces[..n])[1..] == pieces[..n];
  }

  lemma ReturnDropped(line: string)
    requires PlainLine(line)
    ensures DropReturn(line) == line && DropReturn(line + "\r") == line
  {
    var returned := line + "\r";
    assert returned[|line|..] == "\r" && returned[..|line|] == line;
    assert line != "" ==> line[|line| - 1..][0] == line[|line| - 1];
  }

  /** A line ends at a line feed, or at a carriage return and a line feed. */
  lemma LineEnds(line: string, text: string)
    requires PlainLine(line)
    ensures Lines(line + ("\n" + text)) == [line] + Lines(text)
    ensures Lines((line + "\r") + ("\n" + text)) == [line] + Lines(text)
  {
    ReturnDropped(line);
    LinesPeel(line, text);
    LinesPeel(line + "\r", text);
  }

  lemma LinesLast(line: string)
    requires '\n' !in line
    ensures Lines(line) == if line == "" then [] else [line]
  {
    SplitWhole(line, '\n');
    assert [line][..0] == [];
  }

  /** Lines written one after another, each with a line feed. */
  function TextOfLines(lines: seq<string>): string {
    if lines == [] then "" else lines[0] + ("\n" + TextOfLines(lines[1..]))
  }

  predicate PlainLine(line: string) {
    '\n' !in line && (line == "" || line[|line| - 1] != '\r')
  }

  /** Reading the lines of a written text gives them back. */
  lemma {:induction false} LinesWritten(lines: seq<string>)
    requires forall line | line in lines :: PlainLine(line)
    ensures Lines(TextOfLines(lines)) == lines
  {
    if lines == [] {
      LinesLast("");
    } else {
      assert lines[0] in lines;
      LinesWritten(lines[1..]);
      LineEnds(lines[0], TextOfLines(lines[1..]));
    }
  }

  lemma {:induction false} TrimStartGap(gap: string, s: string)
    requires AllSeparate(gap, IsTrimmed) && (s == "" || !IsTrimmed(s[0]))
    ensures TrimStart(gap + s) == s
  {
    if gap == "" {
      assert gap + s == s;
    } else {
      assert (gap + s)[1..] == gap[1..] + s && (gap + s)[0] in gap;
      assert forall c | c in gap[1..] :: c in gap;
      TrimStartGap(gap[1..], s);
    }
  }

  lemma {:induction false} TrimEndGap(s: string, gap: string)
    requires AllSeparate(gap, IsTrimmed) && (s == "" || !IsTrimmed(s[|s| - 1]))
    ensures TrimEnd(s + gap) == s
  {
    if gap == "" {
      assert s + gap == s;
    } else {
      var whole := s + gap;
      assert whole[..|whole| - 1] == s + gap[..|gap| - 1] && whole[|whole| - 1] in gap;
      assert forall c | c in gap[..|gap| - 1] :: c in gap;
      TrimEndGap(s, gap[..|gap| - 1]);
    }
  }

  /** Trimming drops white space on both sides of a text that has none at its ends. */
  lemma TrimGaps(before: string, s: string, after: string)
    requires AllSeparate(before, IsTrimmed) && AllSeparate(after, IsTrimmed)
    requires s != "" && !IsTrimmed(s[0]) && !IsTrimmed(s[|s| - 1])
    ensures Trim(before + (s + after)) == s
  {
    TrimStartGap(before, s + after);
    TrimEndGap(s, after);
  }

  /** The piece stands in the text from i on, between separators or the ends. */
  predicate StandsAt(s: string, c: char, piece: string, i: nat) {
    && i + |piece| <= |s| && s[i..i + |piece|] == piece
    && (i == 0 || s[i - 1] == c) && (i + |piece| == |s| || s[i + |piece|] == c)
  }

  lemma StandsInHead(head: string, rest: string, c: char, piece: string, i: nat)
    requires c !in head && c !in piece && i <= |head| && StandsAt(head + ([c] + rest), c, piece, i)
    ensures piece == head
  {
    var s := head + ([c] + rest);
    assert s[|head|] == c && forall k | 0 <= k < |head| :: s[k] == head[k];
    assert forall k | 0 <= k < |piece| :: s[i + k] == piece[k];
    assert i == 0;
    assert |piece| == |head|;
  }

  lemma StandsInWhole(s: string, c: char, piece: string, i: nat)
    requires c !in s && StandsAt(s, c, piece, i)
    ensures piece == s
  {
    assert i == 0;
    assert |piece| == |s|;
  }

  lemma StandsInRest(head: string, rest: string, c: char, piece: string, i: nat)
    ensures StandsAt(head + ([c] + rest), c, piece, |head| + 1 + i) <==> StandsAt(rest, c, piece, i)
  {
    var s := head + ([c] + rest);
    var j := |head| + 1 + i;
    if i + |piece| <= |rest| {
      assert s[j..j + |piece|] == rest[i..i + |piece|];
    }
  }

  lemma {:induction false} PieceStands(xs: seq<string>, c: char, k: nat) returns (i: nat)
    requires k < |xs|
    ensures StandsAt(Join(xs, c), c, xs[k], i)
  {
    i := 0;
    if |xs| > 1 {
      var rest := Join(xs[1..], c);
      assert Join(xs, c) == xs[0] + ([c] + rest);
      if k > 0 {
        i := PieceStands(xs[1..], c, k - 1);
        StandsInRest(xs[0], rest, c, xs[k], i);
        i := |xs[0]| + 1 + i;
      }
    }
  }

  lemma {:induction false} StandingIsPiece(xs: seq<string>, c: char, piece: string, i: nat)
    requires xs != [] && c !in piece && StandsAt(Join(xs, c), c, piece, i) && NoneHolds(xs, c)
    ensures piece in xs
  {
    NoneHoldsTail(xs, c);
    if |xs| == 1 {
      StandsInWhole(xs[0], c, piece, i);
    } else {
      var rest := Join(xs[1..], c);
      assert Join(xs, c) == xs[0] + ([c] + rest);
      if i <= |xs[0]| {
        StandsInHead(xs[0], rest, c, piece, i);
      } else {
        StandsInRest(xs[0], rest, c, piece, i - |xs[0]| - 1);
        StandingIsPiece(xs[1..], c, piece, i - |xs[0]| - 1);
      }
    }
  }

  /** The pieces of a split are what stands between separators and holds none. */
  lemma SplitPieces(s: string, c: char, piece: string)
    ensures piece in Split(s, c) <==> c !in piece && exists i: nat :: StandsAt(s, c, piece, i)
  {
    var pieces := Split(s, c);
    JoinSplit(s, c);
    if piece in pieces {
      var k :| 0 <= k < |pieces| && pieces[k] == piece;
      var i := PieceStands(pieces, c, k);
    }
    if i: nat :| c !in piece && StandsAt(s, c, piece, i) {
      StandingIsPiece(pieces, c, piece, i);
    }
  }

  /** No component of the path is `..`. */
  ghost predicate StaysBelow(path: string) {
    forall i: nat :: !StandsAt(path, '/', "..", i)
  }

  lemma ParentStands(path: string)
    ensures MentionsParent(path) <==> !StaysBelow(path)
  {
    SplitPieces(path, '/', "..");
  }

  // ----- Blank texts

  lemma {:induction false} TrimStartBlank(s: string)
    ensures TrimStart(s) == "" <==> AllSeparate(s, IsTrimmed)
    ensures forall c | c in TrimStart(s) :: c in s
    ensures TrimStart(s) != "" ==> !IsTrimmed(TrimStart(s)[0])
  {
    if s != "" && IsTrimmed(s[0]) {
      TrimStartBlank(s[1..]);
      assert s == [s[0]] + s[1..];
    } else if s != "" {
      assert s[0] in s;
    }
  }

  lemma {:induction false} TrimEndStops(s: string)
    requires s != "" && !IsTrimmed(s[0])
    ensures TrimEnd(s) != ""
  {
    if IsTrimmed(s[|s| - 1]) {
      TrimEndStops(s[..|s| - 1]);
    }
  }

  /** Trimming leaves nothing exactly of a text of white space alone. */
  lemma TrimBlank(s: string)
    ensures Trim(s) == "" <==> forall c | c in s :: IsTrimmed(c)
  {
    TrimStartBlank(s);
    if TrimStart(s) != "" {
      TrimEndStops(TrimStart(s));
    }
  }

  /** The order is decided by the first difference: a proper prefix comes before the longer text. */
  lemma {:induction false} LessDecided(a: string, b: string)
    ensures Less(a, b) <==>
              exists k | 0 <= k <= |a| && k <= |b| ::
                a[..k] == b[..k] && (if k < |a| && k < |b| then a[k] < b[k] else k == |a| < |b|)
  {
    if a == "" || b == "" || a[0] != b[0] {
      FirstDiffers(a, b);
    } else {
      LessDecided(a[1..], b[1..]);
      forall k | 1 <= k <= |a| && k <= |b| ensures a[..k] == b[..k] <==> a[1..][..k - 1] == b[1..][..k - 1] {
        assert a[..k] == [a[0]] + a[1..][..k - 1] && b[..k] == [b[0]] + b[1..][..k - 1];
      }
      if Less(a, b) {
        var k :| 0 <= k <= |a[1..]| && k <= |b[1..]| && a[1..][..k] == b[1..][..k]
                 && (if k < |a[1..]| && k < |b[1..]| then a[1..][k] < b[1..][k] else k == |a[1..]| < |b[1..]|);
        assert a[..k + 1] == b[..k + 1];
      }
      if k :| 0 <= k <= |a| && k <= |b| && a[..k] == b[..k]
              && (if k < |a| && k < |b| then a[k] < b[k] else k == |a| < |b|) {
        assert a[1..][..k - 1] == b[1..][..k - 1];
      }
    }
  }

  lemma FirstDiffers(a: string, b: string)
    requires a == "" || b == "" || a[0] != b[0]
    ensures Less(a, b) <==>
              exists k | 0 <= k <= |a| && k <= |b| ::
                a[..k] == b[..k] && (if k < |a| && k < |b| then a[k] < b[k] else k == |a| < |b|)
  {
    assert a[..0] == b[..0];
    forall k | 0 < k <= |a| && k <= |b| ensures a[..k] != b[..k] {
      assert a[..k][0] == a[0] && b[..k][0] == b[0];
    }
  }
}
