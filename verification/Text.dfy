/** Strings as the deployer's Rust code handles them: trimming, splitting into lines, joining lines. */
module Text {

  /** The Unicode White_Space property, which `str::trim` and its variants use. */
  predicate IsSpace(c: char) {
    var n := c as int;
    9 <= n <= 13 || n == 0x20 || n == 0x85 || n == 0xA0 || n == 0x1680 || 0x2000 <= n <= 0x200A ||
    n == 0x2028 || n == 0x2029 || n == 0x202F || n == 0x205F || n == 0x3000
  }

  predicate IsQuote(c: char) { c == '"' }

  predicate IsDash(c: char) { c == '-' }

  predicate IsSlash(c: char) { c == '/' }

  predicate IsAsciiAlphanumeric(c: char) {
    'a' <= c <= 'z' || 'A' <= c <= 'Z' || '0' <= c <= '9'
  }

  function ToLower(c: char): (r: char)
    ensures !('A' <= r <= 'Z')
    ensures IsAsciiAlphanumeric(c) <==> IsAsciiAlphanumeric(r)
  {
    if 'A' <= c <= 'Z' then (c as int + 32) as char else c
  }

  function LowerAll(s: string): (r: string)
    ensures |r| == |s|
    ensures forall i | 0 <= i < |s| :: r[i] == ToLower(s[i])
  {
    if s == [] then [] else LowerAll(s[..|s| - 1]) + [ToLower(s[|s| - 1])]
  }

  // ---------- first and last positions ----------

  function FirstFrom<T>(s: seq<T>, p: T -> bool, n: nat): (r: nat)
    requires n <= |s|
    ensures n <= r <= |s|
    ensures r < |s| ==> p(s[r])
    ensures forall i | n <= i < r :: !p(s[i])
    decreases |s| - n
  {
    if n == |s| || p(s[n]) then n else FirstFrom(s, p, n + 1)
  }

  /** The index of the first element that satisfies p, or |s|. */
  function First<T>(s: seq<T>, p: T -> bool): (r: nat)
    ensures r <= |s|
    ensures r < |s| ==> p(s[r])
    ensures forall i | 0 <= i < r :: !p(s[i])
  {
    FirstFrom(s, p, 0)
  }

  lemma FirstIs<T>(s: seq<T>, p: T -> bool, n: nat)
    requires n <= |s|
    requires forall i | 0 <= i < n :: !p(s[i])
    requires n < |s| ==> p(s[n])
    ensures First(s, p) == n
  {
    hide First;
    var r := First(s, p);
    assert r <= |s|;
  }

  /** The length of the longest prefix of s[..n] that does not end with an element satisfying p. */
  function KeepLength(s: string, p: char -> bool, n: nat): (r: nat)
    requires n <= |s|
    ensures r <= n
    ensures 0 < r ==> !p(s[r - 1])
    ensures forall i | r <= i < n :: p(s[i])
  {
    if n > 0 && p(s[n - 1]) then KeepLength(s, p, n - 1) else n
  }

  lemma SliceOfSlice<T>(s: seq<T>, a: nat, b: nat, p: nat, q: nat)
    requires a <= b <= |s| && p <= q <= b - a
    ensures s[a..b][p..q] == s[a + p..a + q]
  {
    var t, u := s[a..b][p..q], s[a + p..a + q];
    assert |t| == |u|;
    forall i | 0 <= i < |t| ensures t[i] == u[i] { assert s[a..b][p + i] == s[a + (p + i)]; }
  }

  lemma MiddleSlice<T>(x: seq<T>, k: seq<T>, y: seq<T>)
    ensures (x + (k + y))[|x|..|x| + |k|] == k
  {
    assert (x + (k + y))[|x|..] == k + y;
    assert (k + y)[..|k|] == k;
  }

  // ---------- trimming ----------

  /** The longest suffix of s that does not begin with a character satisfying p. */
  function TrimLeft(s: string, p: char -> bool): (r: string)
    ensures |r| <= |s| && r == s[|s| - |r|..]
    ensures forall i | 0 <= i < |s| - |r| :: p(s[i])
    ensures r != [] ==> !p(r[0])
  {
    s[First(s, c => !p(c))..]
  }

  /** The longest prefix of s that does not end with a character satisfying p. */
  function TrimRight(s: string, p: char -> bool): (r: string)
    ensures |r| <= |s| && r == s[..|r|]
    ensures forall i | |r| <= i < |s| :: p(s[i])
    ensures r != [] ==> !p(r[|r| - 1])
  {
    s[..KeepLength(s, p, |s|)]
  }

  function TrimStart(s: string): string { TrimLeft(s, IsSpace) }

  function TrimEnd(s: string): string { TrimRight(s, IsSpace) }

  function TrimBoth(s: string, p: char -> bool): string { TrimRight(TrimLeft(s, p), p) }

  function Trim(s: string): string { TrimBoth(s, IsSpace) }

  /** Cuts are unique: a cut with these properties is the left trim. */
  lemma TrimLeftIs(s: string, p: char -> bool, n: nat)
    requires n <= |s|
    requires forall i | 0 <= i < n :: p(s[i])
    requires n < |s| ==> !p(s[n])
    ensures TrimLeft(s, p) == s[n..]
  {
    hide First;
    FirstIs(s, c => !p(c), n);
  }

  lemma TrimRightIs(s: string, p: char -> bool, n: nat)
    requires n <= |s|
    requires forall i | n <= i < |s| :: p(s[i])
    requires 0 < n ==> !p(s[n - 1])
    ensures TrimRight(s, p) == s[..n]
  {
    hide KeepLength;
    var r := KeepLength(s, p, |s|);
    assert r <= |s|;
  }

  /** A span that is bare at both ends, with only padding around it, is what trimming leaves. */
  lemma TrimBothAt(s: string, p: char -> bool, a: nat, b: nat)
    requires a < b <= |s|
    requires forall i | 0 <= i < a || b <= i < |s| :: p(s[i])
    requires !p(s[a]) && !p(s[b - 1])
    ensures TrimBoth(s, p) == s[a..b]
  {
    hide TrimLeft, TrimRight;
    TrimLeftIs(s, p, a);
    var t := s[a..];
    assert forall i | b - a <= i < |t| :: t[i] == s[a + i];
    assert t[b - a - 1] == s[b - 1];
    TrimRightIs(t, p, b - a);
    assert t[..b - a] == s[a..b];
  }

  lemma TrimBothEmpty(s: string, p: char -> bool)
    requires forall i | 0 <= i < |s| :: p(s[i])
    ensures TrimBoth(s, p) == []
  {
    TrimLeftIs(s, p, |s|);
  }

  /** Where the trimmed string sits inside the original. */
  lemma TrimBothSpan(s: string, p: char -> bool) returns (a: nat, b: nat)
    ensures a <= b <= |s| && TrimBoth(s, p) == s[a..b]
    ensures forall i | 0 <= i < a || b <= i < |s| :: p(s[i])
    ensures a < b ==> !p(s[a]) && !p(s[b - 1])
    ensures a == b ==> b == |s|
  {
    hide TrimLeft, TrimRight;
    var l := TrimLeft(s, p);
    var r := TrimRight(l, p);
    a := |s| - |l|;
    b := a + |r|;
    assert s[a..b] == l[..|r|];
    forall i | b <= i < |s| ensures p(s[i]) { assert s[i] == l[i - a]; }
    assert l != [] ==> !p(l[0]);
  }

  lemma TrimBothIdempotent(s: string, p: char -> bool)
    ensures TrimBoth(TrimBoth(s, p), p) == TrimBoth(s, p)
  {
    hide TrimBoth;
    var a, b := TrimBothSpan(s, p);
    var m := s[a..b];
    if m == [] { TrimBothEmpty(m, p); } else {
      TrimBothAt(m, p, 0, |m|);
      assert m[0..|m|] == m;
    }
  }

  // ---------- searching ----------

  /** The index of the first c in s, or |s| when there is none. */
  function IndexOf(s: string, c: char): (r: nat)
    ensures r <= |s|
    ensures r < |s| ==> s[r] == c
    ensures forall i | 0 <= i < r :: s[i] != c
  {
    First(s, x => x == c)
  }

  lemma IndexOfIs(s: string, c: char, n: nat)
    requires n <= |s|
    requires forall i | 0 <= i < n :: s[i] != c
    requires n < |s| ==> s[n] == c
    ensures IndexOf(s, c) == n
  {
    hide First;
    FirstIs(s, x => x == c, n);
  }

  predicate StartsWith(s: string, p: string) { p <= s }

  predicate EndsWith(s: string, p: string) { |p| <= |s| && s[|s| - |p|..] == p }

  predicate Contains(s: string, p: string) {
    exists i | 0 <= i <= |s| :: p <= s[i..]
  }

  // ---------- lines ----------

  /** Drops one trailing carriage return. */
  function StripCr(l: string): string {
    if l != [] && l[|l| - 1] == '\r' then l[..|l| - 1] else l
  }

  function StripCrs(ls: seq<string>): (r: seq<string>)
    ensures |r| == |ls|
    ensures forall i | 0 <= i < |ls| :: r[i] == StripCr(ls[i])
  {
    if ls == [] then [] else [StripCr(ls[0])] + StripCrs(ls[1..])
  }

  predicate EndsInCr(l: string) { l != [] && l[|l| - 1] == '\r' }

  /** A string that can be one line of a text. */
  predicate OneLine(l: string) { '\n' !in l }

  /** A line without a line feed and without a carriage return at its end: one that survives
      being written and split again. */
  predicate IsLine(l: string) { OneLine(l) && !EndsInCr(l) }

  predicate AllLines(ls: seq<string>) { forall i | 0 <= i < |ls| :: IsLine(ls[i]) }

  lemma StripCrsLines(ls: seq<string>)
    requires AllLines(ls)
    ensures StripCrs(ls) == ls
  {
    hide OneLine;
  }

  /** `str::lines`: the pieces between line feeds, each without one trailing carriage return;
      a last piece without a line feed is kept as it is, and an empty last piece is dropped. */
  function Lines(c: string): (r: seq<string>)
    ensures forall l | l in r :: OneLine(l)
    decreases |c|
  {
    if c == [] then []
    else
      var i := IndexOf(c, '\n');
      if i == |c| then [c] else [StripCr(c[..i])] + Lines(c[i + 1..])
  }

  /** Every line followed by a line feed. */
  function Unlines(ls: seq<string>): string {
    if ls == [] then "" else ls[0] + "\n" + Unlines(ls[1..])
  }

  /** `[..].join("\n")` */
  function Join(ls: seq<string>): string {
    if ls == [] then "" else if |ls| == 1 then ls[0] else ls[0] + "\n" + Join(ls[1..])
  }

  lemma {:induction false} JoinUnlines(ls: seq<string>)
    requires ls != []
    ensures Join(ls) + "\n" == Unlines(ls)
  {
    if |ls| > 1 { JoinUnlines(ls[1..]); }
  }

  lemma {:induction false} UnlinesConcat(a: seq<string>, b: seq<string>)
    ensures Unlines(a + b) == Unlines(a) + Unlines(b)
  {
    if a == [] {
      assert a + b == b;
    } else {
      assert (a + b)[1..] == a[1..] + b;
      UnlinesConcat(a[1..], b);
    }
  }

  /** A replacement pushed as one string that contains line feeds reads as all of its lines. */
  lemma UnlinesBlock(a: seq<string>, block: seq<string>, b: seq<string>)
    requires block != []
    ensures Unlines(a + [Join(block)] + b) == Unlines(a + block + b)
  {
    JoinUnlines(block);
    assert Unlines([Join(block)]) == Join(block) + "\n";
    UnlinesConcat(a + [Join(block)], b);
    UnlinesConcat(a, [Join(block)]);
    UnlinesConcat(a + block, b);
    UnlinesConcat(a, block);
  }

  lemma {:induction false} LinesUnlines(ls: seq<string>)
    requires forall l | l in ls :: OneLine(l)
    ensures Lines(Unlines(ls)) == StripCrs(ls)
  {
    if ls != [] {
      var c := Unlines(ls);
      assert OneLine(ls[0]);
      assert c[|ls[0]|] == '\n';
      IndexOfIs(c, '\n', |ls[0]|);
      assert c[..|ls[0]|] == ls[0];
      assert c[|ls[0]| + 1..] == Unlines(ls[1..]);
      LinesUnlines(ls[1..]);
    }
  }

  lemma StripCrsConcat(a: seq<string>, b: seq<string>)
    ensures StripCrs(a + b) == StripCrs(a) + StripCrs(b)
  {
  }

  lemma StripCrsSame(ls: seq<string>)
    requires forall i | 0 <= i < |ls| :: !EndsInCr(ls[i])
    ensures StripCrs(ls) == ls
  {
  }

  /** Dropping carriage returns shortens the text, so a text is unchanged only if no line had one. */
  lemma {:induction false} UnlinesStripShorter(ls: seq<string>)
    ensures |Unlines(StripCrs(ls))| <= |Unlines(ls)|
    ensures |Unlines(StripCrs(ls))| == |Unlines(ls)| ==> forall i | 0 <= i < |ls| :: !EndsInCr(ls[i])
  {
    if ls != [] {
      UnlinesStripShorter(ls[1..]);
      assert StripCrs(ls)[1..] == StripCrs(ls[1..]);
      if |Unlines(StripCrs(ls))| == |Unlines(ls)| {
        forall i | 0 <= i < |ls| ensures !EndsInCr(ls[i]) {
          if i > 0 { assert ls[i] == ls[1..][i - 1]; }
        }
      }
    }
  }

  lemma TrimStripCr(l: string)
    ensures Trim(StripCr(l)) == Trim(l)
  {
    hide TrimBoth;
    if EndsInCr(l) {
      var a, b := TrimBothSpan(l, IsSpace);
      var m := StripCr(l);
      if a == b {
        TrimBothEmpty(m, IsSpace);
      } else {
        assert b < |l| by { assert !IsSpace(l[b - 1]); }
        TrimBothAt(m, IsSpace, a, b);
        assert m[a..b] == l[a..b];
      }
    }
  }
}
