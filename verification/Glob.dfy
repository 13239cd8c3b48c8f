/** The glob language of modules.alias and its bounded matcher (src/scan.rs, glob_matches). */
module Glob {
  import opened Text

  /** What a pattern means: `*` stands for any text, `?` for any one byte, and every other
      byte for itself. */
  ghost predicate Matches(pattern: string, value: string) {
    if pattern == "" then value == ""
    else if pattern[0] == '*' then exists k | 0 <= k <= |value| :: Matches(pattern[1..], value[k..])
    else value != "" && MatchesByte(pattern[0], value[0]) && Matches(pattern[1..], value[1..])
  }

  predicate MatchesByte(p: char, v: char) {
    p == '?' || p == v
  }

  // ----- Composition

  lemma {:induction false} MatchesConcat(p: string, q: string, v: string, w: string)
    requires Matches(p, v) && Matches(q, w)
    ensures Matches(p + q, v + w)
  {
    if p == "" {
      assert p + q == q && v + w == w;
    } else {
      assert (p + q)[1..] == p[1..] + q;
      if p[0] == '*' {
        var k :| 0 <= k <= |v| && Matches(p[1..], v[k..]);
        MatchesConcat(p[1..], q, v[k..], w);
        assert (v + w)[k..] == v[k..] + w;
      } else {
        MatchesConcat(p[1..], q, v[1..], w);
        assert (v + w)[1..] == v[1..] + w;
      }
    }
  }

  lemma SliceTwice(v: string, i: nat, j: nat)
    requires i + j <= |v|
    ensures v[..i + j][i..] == v[i..][..j] && v[i + j..] == v[i..][j..]
  {
  }

  lemma StarMatches(p: string, v: string, i: nat)
    requires p != "" && p[0] == '*' && i <= |v| && Matches(p[1..], v[i..])
    ensures Matches(p, v)
  {
  }

  lemma {:induction false} MatchesSplit(p: string, q: string, v: string) returns (k: nat)
    requires Matches(p + q, v)
    ensures k <= |v| && Matches(p, v[..k]) && Matches(q, v[k..])
  {
    if p == "" {
      assert p + q == q && v[0..] == v;
      k := 0;
    } else {
      assert (p + q)[1..] == p[1..] + q;
      if p[0] == '*' {
        var i :| 0 <= i <= |v| && Matches((p + q)[1..], v[i..]);
        var j := MatchesSplit(p[1..], q, v[i..]);
        k := i + j;
        SliceTwice(v, i, j);
        StarMatches(p, v[..k], i);
      } else {
        var j := MatchesSplit(p[1..], q, v[1..]);
        k := j + 1;
        SliceTwice(v, 1, j);
      }
    }
  }

  /** A concatenated pattern matches exactly the values that split into a part for each half. */
  lemma MatchesComposes(p: string, q: string, v: string)
    ensures Matches(p + q, v) <==> exists k | 0 <= k <= |v| :: Matches(p, v[..k]) && Matches(q, v[k..])
  {
    if Matches(p + q, v) {
      var k := MatchesSplit(p, q, v);
    }
    forall k | 0 <= k <= |v| && Matches(p, v[..k]) && Matches(q, v[k..]) ensures Matches(p + q, v) {
      MatchesConcat(p, q, v[..k], v[k..]);
      assert v == v[..k] + v[k..];
    }
  }

  // ----- The recurrence the matcher's table follows

  lemma MatchesOne(c: char, v: string)
    requires c != '*'
    ensures Matches([c], v) <==> |v| == 1 && MatchesByte(c, v[0])
  {
    assert [c][1..] == "";
  }

  lemma MatchesAll(v: string)
    ensures Matches("*", v)
  {
    assert "*"[1..] == "" && v[|v|..] == "";
    assert Matches("*"[1..], v[|v|..]);
  }

  lemma LastByte(p: string, c: char, v: string)
    requires c != '*'
    ensures Matches(p + [c], v) <==> v != "" && MatchesByte(c, v[|v| - 1]) && Matches(p, v[..|v| - 1])
  {
    if Matches(p + [c], v) {
      var k := MatchesSplit(p, [c], v);
      MatchesOne(c, v[k..]);
    }
    if v != "" && MatchesByte(c, v[|v| - 1]) && Matches(p, v[..|v| - 1]) {
      MatchesOne(c, v[|v| - 1..]);
      MatchesConcat(p, [c], v[..|v| - 1], v[|v| - 1..]);
      assert v == v[..|v| - 1] + v[|v| - 1..];
    }
  }

  lemma StarTakesMore(p: string, v: string, w: string)
    requires Matches(p, v)
    ensures Matches(p + "*", v + w)
  {
    MatchesAll(w);
    MatchesConcat(p, "*", v, w);
  }

  lemma StarGivesBack(p: string, v: string)
    requires Matches(p + "*", v)
    ensures Matches(p, v) || (v != "" && Matches(p + "*", v[..|v| - 1]))
  {
    var k := MatchesSplit(p, "*", v);
    if k == |v| {
      assert v[..k] == v;
    } else {
      StarTakesMore(p, v[..k], v[k..|v| - 1]);
      assert v[..|v| - 1] == v[..k] + v[k..|v| - 1];
    }
  }

  lemma StarKeeps(p: string, v: string)
    requires Matches(p, v) || (v != "" && Matches(p + "*", v[..|v| - 1]))
    ensures Matches(p + "*", v)
  {
    if Matches(p, v) {
      assert v + "" == v;
      StarTakesMore(p, v, "");
    } else {
      var k := MatchesSplit(p, "*", v[..|v| - 1]);
      assert v[..|v| - 1][..k] == v[..k] && v == v[..k] + v[k..];
      StarTakesMore(p, v[..k], v[k..]);
    }
  }

  lemma LastStar(p: string, v: string)
    ensures Matches(p + "*", v) <==> Matches(p, v) || (v != "" && Matches(p + "*", v[..|v| - 1]))
  {
    if Matches(p + "*", v) {
      StarGivesBack(p, v);
    } else if Matches(p, v) || (v != "" && Matches(p + "*", v[..|v| - 1])) {
      StarKeeps(p, v);
    }
  }

  /** Row i of the table: which prefixes of the value the first i pattern bytes match. */
  ghost predicate IsRow(row: seq<bool>, pattern: string, i: nat, value: string)
    requires i <= |pattern|
  {
    |row| == |value| + 1
    && forall j | 0 <= j <= |value| :: row[j] == Matches(pattern[..i], value[..j])
  }

  lemma NextStar(pattern: string, i: nat, value: string, j: nat)
    requires i < |pattern| && pattern[i] == '*' && j <= |value|
    ensures Matches(pattern[..i + 1], value[..j])
            <==> Matches(pattern[..i], value[..j]) || (j > 0 && Matches(pattern[..i + 1], value[..j - 1]))
  {
    assert pattern[..i + 1] == pattern[..i] + "*";
    LastStar(pattern[..i], value[..j]);
    if j > 0 {
      assert value[..j][..j - 1] == value[..j - 1];
    }
  }

  lemma NextByte(pattern: string, i: nat, value: string, j: nat)
    requires i < |pattern| && pattern[i] != '*' && j <= |value|
    ensures Matches(pattern[..i + 1], value[..j])
            <==> j > 0 && MatchesByte(pattern[i], value[j - 1]) && Matches(pattern[..i], value[..j - 1])
  {
    assert pattern[..i + 1] == pattern[..i] + [pattern[i]];
    LastByte(pattern[..i], pattern[i], value[..j]);
    if j > 0 {
      assert value[..j][..j - 1] == value[..j - 1];
    }
  }

  /** One pass of the matcher: the row for one more pattern byte. */
  method NextRow(pattern: string, i: nat, value: string, row: array<bool>) returns (next: array<bool>)
    requires i < |pattern| && IsRow(row[..], pattern, i, value)
    ensures fresh(next) && IsRow(next[..], pattern, i + 1, value)
  {
    var n := |value|;
    next := new bool[n + 1](_ => false);
    match pattern[i]
    case '*' =>
      next[0] := row[0];
      NextStar(pattern, i, value, 0);
      for index := 1 to n + 1
        invariant forall j | 0 <= j < index :: next[j] == Matches(pattern[..i + 1], value[..j])
      {
        next[index] := row[index] || next[index - 1];
        NextStar(pattern, i, value, index);
      }
    case '?' =>
      forall index | 1 <= index <= n {
        next[index] := row[index - 1];
      }
      forall j | 0 <= j <= n ensures next[j] == Matches(pattern[..i + 1], value[..j]) {
        NextByte(pattern, i, value, j);
      }
    case literal =>
      NextByte(pattern, i, value, 0);
      for index := 1 to n + 1
        invariant forall j | 0 <= j < index :: next[j] == Matches(pattern[..i + 1], value[..j])
      {
        next[index] := row[index - 1] && value[index - 1] == literal;
        NextByte(pattern, i, value, index);
      }
  }

  /** The dynamic-programming matcher decides the meaning of every pattern on every value. */
  method GlobMatches(pattern: string, value: string) returns (r: bool)
    ensures r <==> Matches(pattern, value)
  {
    var row := new bool[|value| + 1](_ => false);
    row[0] := true;
    assert pattern[..0] == "";
    for i := 0 to |pattern|
      invariant IsRow(row[..], pattern, i, value)
    {
      row := NextRow(pattern, i, value, row);
    }
    assert pattern[..|pattern|] == pattern && value[..|value|] == value;
    return row[|value|];
  }

  // ----- The literal prefix that is compared before the matcher runs

  predicate IsAscii(s: string) {
    forall c | c in s :: c as int < 128
  }

  /** The pattern's bytes up to its first wildcard. */
  function LiteralBytes(pattern: string): (r: string)
    ensures |r| <= |pattern| && r == pattern[..|r|]
    ensures |r| < |pattern| ==> pattern[|r|] == '*' || pattern[|r|] == '?'
    ensures forall c | c in r :: c != '*' && c != '?'
  {
    if pattern == "" || pattern[0] == '*' || pattern[0] == '?' then ""
    else [pattern[0]] + LiteralBytes(pattern[1..])
  }

  /** One byte taken for a Latin-1 character and written back as UTF-8: two bytes from 128 on. */
  function Reencoded(c: char): (r: string)
    ensures |r| == if c as int < 128 then 1 else 2
  {
    if c as int < 128 then [c]
    else [(0xC0 + c as int / 64) as char, (0x80 + c as int % 64) as char]
  }

  function ReencodedText(s: string): (r: string)
    ensures |r| >= |s| && (|r| == |s| <==> IsAscii(s))
    ensures IsAscii(s) ==> r == s
  {
    if s == "" then ""
    else
      assert IsAscii(s) <==> s[0] as int < 128 && IsAscii(s[1..]) by {
        assert s[0] in s && forall c | c in s[1..] :: c in s;
        assert forall c | c in s :: c == s[0] || c in s[1..];
      }
      Reencoded(s[0]) + ReencodedText(s[1..])
  }

  /** `literal_prefix`: the literal bytes, each turned into a character of its own. */
  function LiteralPrefix(pattern: string): string {
    ReencodedText(LiteralBytes(pattern))
  }

  lemma {:induction false} MatchStartsWithLiteral(pattern: string, value: string)
    requires Matches(pattern, value)
    ensures HasPrefix(value, LiteralBytes(pattern))
  {
    if LiteralBytes(pattern) != "" {
      MatchStartsWithLiteral(pattern[1..], value[1..]);
      assert value == [value[0]] + value[1..];
    }
  }

  /** A value the pattern matches, with c in the place of every wildcard. */
  function Instance(pattern: string, c: char): (r: string)
    ensures |r| == |pattern|
    ensures pattern != "" && (pattern[0] == '*' || pattern[0] == '?') ==> r[0] == c
  {
    if pattern == "" then ""
    else [if pattern[0] == '*' || pattern[0] == '?' then c else pattern[0]] + Instance(pattern[1..], c)
  }

  lemma {:induction false} InstanceMatches(pattern: string, c: char)
    ensures Matches(pattern, Instance(pattern, c))
  {
    if pattern != "" {
      InstanceMatches(pattern[1..], c);
      assert Instance(pattern, c)[1..] == Instance(pattern[1..], c);
    }
  }

  lemma {:induction false} InstanceSkipsLiteral(pattern: string, c: char)
    requires |LiteralBytes(pattern)| < |pattern|
    ensures Instance(pattern, c)[|LiteralBytes(pattern)|] == c
  {
    if LiteralBytes(pattern) != "" {
      InstanceSkipsLiteral(pattern[1..], c);
    }
  }

  /** Filtering on the literal prefix first loses no match of the pattern exactly when the
      pattern is ASCII up to its first wildcard. */
  lemma PrefixFilterLossless(pattern: string)
    ensures (forall value | Matches(pattern, value) :: HasPrefix(value, LiteralPrefix(pattern)))
            <==> IsAscii(LiteralBytes(pattern))
  {
    var literal, prefix := LiteralBytes(pattern), LiteralPrefix(pattern);
    if IsAscii(literal) {
      forall value | Matches(pattern, value) ensures HasPrefix(value, prefix) {
        MatchStartsWithLiteral(pattern, value);
      }
    } else {
      var c := if prefix[|literal|] == 'a' then 'b' else 'a';
      var missed := Instance(pattern, c);
      InstanceMatches(pattern, c);
      if |literal| < |pattern| {
        InstanceSkipsLiteral(pattern, c);
        assert missed[|literal|] != prefix[|literal|];
      }
      assert !HasPrefix(missed, prefix);
    }
  }

  /** A match is never missed when the value is ASCII, whatever the pattern. */
  lemma AsciiValueNeverMissed(pattern: string, value: string)
    requires Matches(pattern, value) && (IsAscii(value) || IsAscii(LiteralBytes(pattern)))
    ensures HasPrefix(value, LiteralPrefix(pattern))
  {
    MatchStartsWithLiteral(pattern, value);
    var literal := LiteralBytes(pattern);
    assert forall c | c in literal :: c in value;
    assert IsAscii(literal);
  }
}
