/** Deployment name prefixes and output scope keys: lower-casing, collapsing runs of dashes, trimming
    and truncating (src/apply.rs and src/config.rs). */
module Normalizer {
  import opened Text

  function MapChar(c: char): char { if IsAsciiAlphanumeric(c) then ToLower(c) else '-' }

  function MapChars(s: string): (r: string)
    ensures |r| == |s|
    ensures forall i | 0 <= i < |s| :: r[i] == MapChar(s[i])
  {
    if s == [] then [] else MapChars(s[..|s| - 1]) + [MapChar(s[|s| - 1])]
  }

  predicate HasDoubleDash(s: string) {
    exists i | 0 <= i < |s| - 1 :: s[i] == '-' && s[i + 1] == '-'
  }

  /** One pass of `replace("--", "-")`: left to right, without overlap. */
  function ReplacePairs(s: string): (r: string)
    ensures |r| <= |s|
    decreases |s|
  {
    if s == [] then []
    else if |s| >= 2 && s[0] == '-' && s[1] == '-' then ['-'] + ReplacePairs(s[2..])
    else [s[0]] + ReplacePairs(s[1..])
  }

  /** One-pass collapsing of runs: a dash is dropped when the character before it was a dash. */
  function Collapse(afterDash: bool, s: string): string
    decreases |s|
  {
    if s == [] then []
    else if s[0] != '-' then [s[0]] + Collapse(false, s[1..])
    else if afterDash then Collapse(true, s[1..])
    else ['-'] + Collapse(true, s[1..])
  }

  lemma {:induction false} PairsShrink(s: string)
    ensures HasDoubleDash(s) ==> |ReplacePairs(s)| < |s|
    decreases |s|
  {
    if s != [] && !(|s| >= 2 && s[0] == '-' && s[1] == '-') {
      PairsShrink(s[1..]);
      if HasDoubleDash(s) {
        var i :| 0 <= i < |s| - 1 && s[i] == '-' && s[i + 1] == '-';
        assert s[1..][i - 1] == '-' && s[1..][i] == '-';
      }
    }
  }

  /** Replacing pairs does not change what one-pass collapsing gives. */
  lemma {:induction false} PairsKeepCollapse(d: bool, s: string)
    ensures Collapse(d, ReplacePairs(s)) == Collapse(d, s)
    decreases |s|
  {
    if s != [] {
      var r := ReplacePairs(s);
      if |s| >= 2 && s[0] == '-' && s[1] == '-' {
        assert r[1..] == ReplacePairs(s[2..]) && s[1..][1..] == s[2..];
        PairsKeepCollapse(true, s[2..]);
      } else {
        assert r[1..] == ReplacePairs(s[1..]);
        PairsKeepCollapse(true, s[1..]);
        PairsKeepCollapse(false, s[1..]);
      }
    }
  }

  lemma {:induction false} CollapseFixed(d: bool, s: string)
    requires !HasDoubleDash(s) && (d && s != [] ==> s[0] != '-')
    ensures Collapse(d, s) == s
    decreases |s|
  {
    if s != [] {
      SliceKeepsSqueezing(s, 1, |s|);
      assert s[1..|s|] == s[1..];
      if s[0] == '-' && |s| > 1 { assert s[0 + 1] != '-'; }
      CollapseFixed(s[0] == '-', s[1..]);
    }
  }

  lemma {:induction false} CollapseHasNoDoubleDash(d: bool, s: string)
    ensures var r := Collapse(d, s); !HasDoubleDash(r) && (d && r != [] ==> r[0] != '-')
    ensures forall c | c in Collapse(d, s) :: c in s
    decreases |s|
  {
    if s != [] {
      CollapseHasNoDoubleDash(s[0] == '-', s[1..]);
      var r, t := Collapse(d, s), Collapse(s[0] == '-', s[1..]);
      if s[0] != '-' || !d {
        assert r == [s[0]] + t;
        forall i | 0 <= i < |r| - 1 ensures !(r[i] == '-' && r[i + 1] == '-') {
          if i > 0 { assert r[i] == t[i - 1] && r[i + 1] == t[i]; }
        }
      }
    }
  }

  /** The loop both callers run: rewrite pairs until there are none. */
  method CollapseDashes(s: string) returns (r: string)
    ensures r == Collapse(false, s)
  {
    r := s;
    while HasDoubleDash(r)
      invariant Collapse(false, r) == Collapse(false, s)
      decreases |r|
    {
      PairsKeepCollapse(false, r);
      PairsShrink(r);
      r := ReplacePairs(r);
    }
    CollapseFixed(false, r);
  }

  /** Mapped, collapsed and trimmed of dashes: the whole of a scope key. */
  function Squeeze(s: string): string { TrimBoth(Collapse(false, MapChars(s)), IsDash) }

  const NAME_PREFIX := "greentic-"
  const MAX_LENGTH := 24

  predicate IsLowerLetter(c: char) { 'a' <= c <= 'z' }

  function Shorten(s: string): string {
    if |s| > MAX_LENGTH then TrimRight(s[..MAX_LENGTH], IsDash) else s
  }

  /** The result of `normalize_deployment_name_prefix`. */
  function Normalize(v: string): string {
    var n := Squeeze(Trim(v));
    if n == [] then [] else Shorten(if IsLowerLetter(n[0]) then n else NAME_PREFIX + n)
  }

  method NormalizeDeploymentNamePrefix(value: string) returns (normalized: string)
    ensures normalized == Normalize(value)
  {
    normalized := MapChars(Trim(value));
    normalized := CollapseDashes(normalized);
    normalized := TrimBoth(normalized, IsDash);
    if normalized == [] {
      return;
    }
    SqueezeShape(Trim(value));
    assert normalized[0] in normalized;
    if !IsLowerLetter(normalized[0]) {
      normalized := NAME_PREFIX + normalized;
    }
    if |normalized| > MAX_LENGTH {
      normalized := normalized[..MAX_LENGTH];
      normalized := TrimRight(normalized, IsDash);
    }
  }

  /** The body shared by `output_scope_key` and `scope_key_for_path`: no trimming of white space. */
  method ScopeKey(raw: string) returns (key: string)
    ensures key == Squeeze(raw)
  {
    var scoped := "";
    for i := 0 to |raw|
      invariant scoped == MapChars(raw[..i])
    {
      assert raw[..i + 1][..i] == raw[..i];
      if IsAsciiAlphanumeric(raw[i]) {
        scoped := scoped + [ToLower(raw[i])];
      } else {
        scoped := scoped + ['-'];
      }
    }
    assert raw[..|raw|] == raw;
    scoped := CollapseDashes(scoped);
    key := TrimBoth(scoped, IsDash);
  }

  // ---------- what a squeezed string looks like ----------

  predicate IsNameChar(c: char) { IsLowerLetter(c) || '0' <= c <= '9' || c == '-' }

  predicate IsSqueezed(s: string) {
    (forall c | c in s :: IsNameChar(c)) && !HasDoubleDash(s) &&
    (s != [] ==> s[0] != '-' && s[|s| - 1] != '-')
  }

  lemma MapCharIsNameChar(c: char)
    ensures IsNameChar(MapChar(c))
    ensures MapChar(c) == '-' <==> !IsAsciiAlphanumeric(c)
  {
  }

  lemma SliceKeepsSqueezing(s: string, a: nat, b: nat)
    requires a <= b <= |s| && !HasDoubleDash(s)
    ensures !HasDoubleDash(s[a..b])
  {
    var t := s[a..b];
    forall i | 0 <= i < |t| - 1 ensures !(t[i] == '-' && t[i + 1] == '-') {
      var n := a + i;
      assert t[i] == s[n] && t[i + 1] == s[n + 1];
    }
  }

  lemma SqueezeShape(s: string)
    ensures IsSqueezed(Squeeze(s))
  {
    hide Collapse, TrimBoth;
    var m := MapChars(s);
    var c := Collapse(false, m);
    CollapseHasNoDoubleDash(false, m);
    var a, b := TrimBothSpan(c, IsDash);
    SliceKeepsSqueezing(c, a, b);
    forall x | x in c[a..b] ensures IsNameChar(x) {
      assert x in m;
      var i :| 0 <= i < |m| && m[i] == x;
      MapCharIsNameChar(s[i]);
    }
  }

  // ---------- squeezing commutes with trimming ----------

  predicate AllDashes(s: string) { forall i | 0 <= i < |s| :: s[i] == '-' }

  lemma {:induction false} CollapseDashRun(d: bool, s: string)
    requires AllDashes(s)
    ensures Collapse(d, s) == if d || s == [] then [] else ['-']
    decreases |s|
  {
    if s != [] { CollapseDashRun(true, s[1..]); }
  }

  /** Collapsing restarts after a character that is not a dash. */
  lemma {:induction false} CollapseConcat(d: bool, a: string, b: string)
    requires a != [] && a[|a| - 1] != '-'
    ensures Collapse(d, a + b) == Collapse(d, a) + Collapse(false, b)
    decreases |a|
  {
    assert (a + b)[1..] == a[1..] + b;
    if |a| > 1 {
      CollapseConcat(a[0] == '-', a[1..], b);
    } else {
      assert a[1..] + b == b;
    }
  }

  lemma {:induction false} CollapseAfterDashes(d: bool, a: string, b: string)
    requires AllDashes(a) && b != [] && b[0] != '-'
    ensures Collapse(d, a + b) == (if d || a == [] then [] else ['-']) + Collapse(false, b)
    decreases |a|
  {
    if a == [] {
      assert a + b == b;
    } else {
      assert (a + b)[1..] == a[1..] + b;
      CollapseAfterDashes(true, a[1..], b);
    }
  }

  lemma {:induction false} CollapseEnds(s: string)
    requires s != [] && s[0] != '-' && s[|s| - 1] != '-'
    ensures var r := Collapse(false, s); r != [] && r[0] == s[0] && r[|r| - 1] == s[|s| - 1]
  {
    var a := s[..|s| - 1];
    var z := [s[|s| - 1]];
    assert s == a + z;
    if a != [] {
      CollapseSuffix(false, a, z);
    }
  }

  lemma {:induction false} CollapseSuffix(d: bool, a: string, z: string)
    requires |z| == 1 && z[0] != '-'
    ensures Collapse(d, a + z) == Collapse(d, a) + z
    decreases |a|
  {
    if a == [] {
      assert a + z == z;
    } else {
      assert (a + z)[1..] == a[1..] + z;
      CollapseSuffix(a[0] == '-', a[1..], z);
    }
  }

  /** Dashes around a core do not show once the collapsed string is trimmed. */
  lemma SqueezeCore(a: string, m: string, b: string)
    requires AllDashes(a) && AllDashes(b) && m != [] && m[0] != '-' && m[|m| - 1] != '-'
    ensures TrimBoth(Collapse(false, a + m + b), IsDash) == Collapse(false, m)
  {
    hide TrimBoth, Collapse;
    var x := if a == [] then [] else ['-'];
    var y := if b == [] then [] else ['-'];
    var k := Collapse(false, m);
    assert a + m + b == a + (m + b);
    CollapseAfterDashes(false, a, m + b);
    CollapseConcat(false, m, b);
    CollapseDashRun(false, b);
    CollapseEnds(m);
    var s := x + (k + y);
    assert Collapse(false, a + m + b) == s;
    assert s[|x|] == k[0] && s[|x| + |k| - 1] == k[|k| - 1];
    assert forall i | 0 <= i < |x| || |x| + |k| <= i < |s| :: s[i] == '-';
    TrimBothAt(s, IsDash, |x|, |x| + |k|);
    MiddleSlice(x, k, y);
  }

  lemma SqueezeDashes(s: string)
    requires AllDashes(s)
    ensures TrimBoth(Collapse(false, s), IsDash) == []
  {
    hide TrimBoth;
    CollapseDashRun(false, s);
    TrimBothEmpty(Collapse(false, s), IsDash);
  }

  lemma SpaceIsNotAlphanumeric(c: char)
    requires IsSpace(c)
    ensures MapChar(c) == '-'
  {
  }

  lemma SqueezePadded(s: string, a: nat, b: nat)
    requires a <= b <= |s| && AllDashes(s[..a]) && AllDashes(s[b..])
    ensures TrimBoth(Collapse(false, s), IsDash) == TrimBoth(Collapse(false, s[a..b]), IsDash)
  {
    hide TrimBoth, Collapse;
    var t := s[a..b];
    var p, q := TrimBothSpan(t, IsDash);
    DashesAround(s, a, b, a + p, a + q);
    if p == q {
      assert AllDashes(t);
      SqueezeDashes(t);
      SqueezeDashes(s);
    } else {
      SqueezeCoreAt(t, p, q);
      SqueezeCoreAt(s, a + p, a + q);
      SliceOfSlice(s, a, b, p, q);
    }
  }

  lemma DashesAround(s: string, a: nat, b: nat, x: nat, y: nat)
    requires a <= x <= y <= b <= |s| && AllDashes(s[..a]) && AllDashes(s[b..])
    requires forall i | 0 <= i < x - a || y - a <= i < b - a :: s[a..b][i] == '-'
    ensures forall i | 0 <= i < x || y <= i < |s| :: s[i] == '-'
  {
    forall i | 0 <= i < x || y <= i < |s| ensures s[i] == '-' {
      if i < a { assert s[..a][i] == '-'; }
      else if b <= i { assert s[b..][i - b] == '-'; }
      else { assert s[a..b][i - a] == '-'; }
    }
  }

  lemma SqueezeCoreAt(s: string, p: nat, q: nat)
    requires p < q <= |s| && s[p] != '-' && s[q - 1] != '-'
    requires forall i | 0 <= i < p || q <= i < |s| :: s[i] == '-'
    ensures TrimBoth(Collapse(false, s), IsDash) == Collapse(false, s[p..q])
  {
    hide TrimBoth, Collapse;
    assert s[..p] + s[p..q] + s[q..] == s;
    SqueezeCore(s[..p], s[p..q], s[q..]);
  }

  /** The extra leading trim of the prefix normaliser changes nothing: its core is the scope key. */
  lemma SqueezeIgnoresTrim(v: string)
    ensures Squeeze(Trim(v)) == Squeeze(v)
  {
    hide TrimBoth, Collapse;
    var a, b := TrimBothSpan(v, IsSpace);
    var m := MapChars(v);
    forall i | 0 <= i < a || b <= i < |v| ensures m[i] == '-' { SpaceIsNotAlphanumeric(v[i]); }
    assert MapChars(v[a..b]) == m[a..b];
    SqueezePadded(m, a, b);
  }

  // ---------- the normaliser ----------

  /** A name the normaliser may return. */
  predicate IsName(r: string) {
    IsSqueezed(r) && r != [] && IsLowerLetter(r[0]) && |r| <= MAX_LENGTH
  }

  lemma SqueezeEmpty(s: string)
    ensures Squeeze(s) == [] <==> forall c | c in s :: !IsAsciiAlphanumeric(c)
  {
    hide TrimBoth, Collapse;
    var m := MapChars(s);
    var p, q := TrimBothSpan(m, IsDash);
    forall i | 0 <= i < |s| ensures m[i] == '-' <==> !IsAsciiAlphanumeric(s[i]) { MapCharIsNameChar(s[i]); }
    if p == q {
      SqueezeDashes(m);
      forall c | c in s ensures !IsAsciiAlphanumeric(c) {
        var i :| 0 <= i < |s| && s[i] == c;
        assert m[i] == '-';
      }
    } else {
      SqueezeCoreAt(m, p, q);
      CollapseEnds(m[p..q]);
      assert s[p] in s;
    }
  }

  lemma NormalizeEmpty(v: string)
    ensures Normalize(v) == [] <==> forall c | c in v :: !IsAsciiAlphanumeric(c)
  {
    hide Squeeze;
    SqueezeEmpty(v);
    SqueezeIgnoresTrim(v);
    var n := Squeeze(v);
    if n != [] {
      SqueezeShape(v);
      var f := if IsLowerLetter(n[0]) then n else NAME_PREFIX + n;
      assert f[0] != '-';
      ShortenShape(f);
    }
  }

  lemma ShortenShape(f: string)
    requires f != [] && f[0] != '-'
    ensures Shorten(f) != [] && Shorten(f) == f[..|Shorten(f)|] && |Shorten(f)| <= MAX_LENGTH
    ensures |f| > MAX_LENGTH ==> Shorten(f)[|Shorten(f)| - 1] != '-'
    ensures |f| <= MAX_LENGTH ==> Shorten(f) == f
  {
    hide KeepLength;
    if |f| > MAX_LENGTH {
      var t := f[..MAX_LENGTH];
      var r := TrimRight(t, IsDash);
      assert !IsDash(t[0]);
      assert f[..|r|] == t[..|r|];
    }
  }

  lemma PrefixedName(n: string)
    requires IsSqueezed(n) && n != []
    ensures IsSqueezed(NAME_PREFIX + n)
  {
    var f := NAME_PREFIX + n;
    forall i | 0 <= i < |f| - 1 ensures !(f[i] == '-' && f[i + 1] == '-') {
      if i >= 9 { assert f[i] == n[i - 9] && f[i + 1] == n[i - 8]; }
    }
    assert f[|f| - 1] == n[|n| - 1];
    forall c | c in f ensures IsNameChar(c) {
      if c !in n { assert c in NAME_PREFIX; }
    }
  }

  /** Every result that is not empty is a name. */
  lemma NormalizeIsName(v: string)
    ensures Normalize(v) != [] ==> IsName(Normalize(v))
  {
    hide Squeeze, Shorten, IsSqueezed;
    var n := Squeeze(Trim(v));
    SqueezeShape(Trim(v));
    if n != [] {
      var f := if IsLowerLetter(n[0]) then n else NAME_PREFIX + n;
      PrefixedName(n);
      ShortenName(f);
    }
  }

  lemma ShortenName(f: string)
    requires IsSqueezed(f) && f != [] && IsLowerLetter(f[0])
    ensures IsName(Shorten(f))
  {
    hide Shorten;
    ShortenShape(f);
    var r := Shorten(f);
    SliceKeepsSqueezing(f, 0, |r|);
    assert f[0..|r|] == r;
    assert forall c | c in r :: c in f;
  }

  /** The normaliser fixes exactly the empty string and the names; so it is idempotent. */
  lemma NormalizeFixes(r: string)
    ensures Normalize(r) == r <==> r == [] || IsName(r)
    ensures Normalize(Normalize(r)) == Normalize(r)
  {
    hide Normalize, IsName;
    NormalizeIsName(r);
    NormalizeEmpty([]);
    if IsName(r) { NormalizeName(r); }
    if IsName(Normalize(r)) { NormalizeName(Normalize(r)); }
  }

  lemma NormalizeName(r: string)
    requires IsName(r)
    ensures Normalize(r) == r
  {
    hide TrimBoth, Collapse;
    var m := MapChars(r);
    forall i | 0 <= i < |r| ensures m[i] == r[i] { assert r[i] in r; }
    assert m == r;
    CollapseFixed(false, r);
    TrimBothAt(r, IsDash, 0, |r|);
    assert r[0..|r|] == r;
    SqueezeIgnoresTrim(r);
  }

  // ---------- what a name is made of ----------

  /** The words of a text: its longest runs of ASCII letters and digits, in lower case. */
  function Words(s: string): (r: seq<string>)
    ensures forall w | w in r :: w != []
    decreases |s|
  {
    var n := First(s, c => !IsAsciiAlphanumeric(c));
    if s == [] then [] else if n == 0 then Words(s[1..]) else [LowerAll(s[..n])] + Words(s[n..])
  }

  function Dashed(words: seq<string>): (r: string)
    ensures words != [] && words[0] != [] ==> r != []
  {
    if words == [] then [] else words[0] + (if |words| == 1 then [] else "-" + Dashed(words[1..]))
  }

  /** Capital letters become the small letters at the same place in the alphabet; nothing else changes. */
  lemma LowerAlphabet(c: char)
    ensures LowerAll("ABCDEFGHIJKLMNOPQRSTUVWXYZ") == "abcdefghijklmnopqrstuvwxyz"
    ensures !('A' <= c <= 'Z') ==> ToLower(c) == c
  {
    hide LowerAll;
  }

  lemma MapWord(w: string)
    requires forall i | 0 <= i < |w| :: IsAsciiAlphanumeric(w[i])
    ensures Collapse(false, MapChars(w)) == LowerAll(w) && forall i | 0 <= i < |w| :: MapChars(w)[i] != '-'
  {
    hide MapChars, LowerAll, Collapse;
    var m := MapChars(w);
    forall i | 0 <= i < |w| ensures m[i] != '-' { MapCharIsNameChar(w[i]); }
    assert m == LowerAll(w);
    CollapseFixed(false, m);
  }

  /** A word and what comes after it. */
  lemma SqueezeWord(w: string, r: string)
    requires w != [] && forall i | 0 <= i < |w| :: IsAsciiAlphanumeric(w[i])
    requires r != [] ==> !IsAsciiAlphanumeric(r[0])
    ensures Squeeze(w + r) == LowerAll(w) + (if Squeeze(r) == [] then [] else "-" + Squeeze(r))
  {
    hide MapChars, LowerAll, Collapse, TrimBoth;
    MapCharsConcat(w, r);
    MapWord(w);
    if r != [] { MapCharIsNameChar(r[0]); }
    TrimmedJoin(MapChars(w), MapChars(r));
  }

  lemma MapCharsConcat(a: string, b: string)
    ensures MapChars(a + b) == MapChars(a) + MapChars(b)
  {
    hide MapChars;
    var x, y := MapChars(a + b), MapChars(a) + MapChars(b);
    assert forall i | 0 <= i < |x| :: x[i] == y[i];
  }

  lemma TrimmedJoin(x: string, y: string)
    requires x != [] && (forall i | 0 <= i < |x| :: x[i] != '-') && (y != [] ==> y[0] == '-')
    ensures var r := TrimBoth(Collapse(false, y), IsDash);
            TrimBoth(Collapse(false, x + y), IsDash) == Collapse(false, x) + if r == [] then [] else "-" + r
  {
    hide Collapse, TrimBoth;
    var p, q := TrimBothSpan(y, IsDash);
    var m := x + y;
    if p == q {
      SqueezeDashes(y);
      SqueezeCoreAt(m, 0, |x|);
      assert m[0..|x|] == x;
    } else {
      SqueezeCoreAt(y, p, q);
      SqueezeCoreAt(m, 0, |x| + q);
      assert m[0..|x| + q] == x + (y[..p] + y[p..q]);
      CollapseParts(x, y[..p], y[p..q]);
      CollapseEnds(y[p..q]);
    }
  }

  lemma CollapseParts(x: string, dashes: string, y: string)
    requires x != [] && x[|x| - 1] != '-' && dashes != [] && AllDashes(dashes) && y != [] && y[0] != '-'
    ensures Collapse(false, x + (dashes + y)) == Collapse(false, x) + "-" + Collapse(false, y)
  {
    hide Collapse;
    CollapseConcat(false, x, dashes + y);
    CollapseAfterDashes(false, dashes, y);
  }

  lemma SqueezeFront(s: string)
    requires s != [] && !IsAsciiAlphanumeric(s[0])
    ensures Squeeze(s) == Squeeze(s[1..])
  {
    hide MapChars, Collapse, TrimBoth;
    var m := MapChars(s);
    MapCharIsNameChar(s[0]);
    SqueezePadded(m, 1, |m|);
    assert m[1..|m|] == MapChars(s[1..]);
  }

  /** A scope key is the words of the text with one dash between any two. */
  lemma {:induction false} SqueezeIsWords(s: string)
    ensures Squeeze(s) == Dashed(Words(s))
    decreases |s|
  {
    hide Squeeze, LowerAll, First;
    var n := First(s, c => !IsAsciiAlphanumeric(c));
    if s == [] {
      SqueezeEmpty(s);
    } else if n == 0 {
      SqueezeFront(s);
      SqueezeIsWords(s[1..]);
    } else {
      assert s == s[..n] + s[n..];
      SqueezeWord(s[..n], s[n..]);
      SqueezeIsWords(s[n..]);
      var rest := Words(s[n..]);
      assert ([LowerAll(s[..n])] + rest)[1..] == rest;
      assert rest != [] ==> rest[0] in rest;
    }
  }

  /** The normalised name, exactly: the words with one dash between any two, after a fixed word if they
      begin with a digit, and of that the longest part of at most 24 characters that does not end in a
      dash. */
  lemma NormalizeExact(v: string)
    ensures var words, r := Dashed(Words(v)), Normalize(v);
            var full := if words == [] || 'a' <= words[0] <= 'z' then words else "greentic-" + words;
            |r| <= |full| && r == full[..|r|] && |r| <= 24 && (|full| <= 24 ==> r == full) &&
            (r != [] ==> r[|r| - 1] != '-') &&
            forall i | |r| <= i < |full| && i < 24 :: full[i] == '-'
  {
    hide Squeeze, Dashed, Words, First;
    SqueezeIsWords(v);
    SqueezeIgnoresTrim(v);
    SqueezeShape(v);
    var words := Squeeze(v);
    if words != [] {
      var full := if IsLowerLetter(words[0]) then words else NAME_PREFIX + words;
      ShortenLongest(full);
    }
  }

  lemma ShortenLongest(f: string)
    requires f != [] && f[0] != '-' && f[|f| - 1] != '-'
    ensures var r := Shorten(f);
            |r| <= |f| && r == f[..|r|] && |r| <= 24 && r != [] && r[|r| - 1] != '-' &&
            (|f| <= 24 ==> r == f) && forall i | |r| <= i < |f| && i < 24 :: f[i] == '-'
  {
    ShortenShape(f);
    if |f| > MAX_LENGTH {
      var t, r := f[..MAX_LENGTH], Shorten(f);
      assert r == TrimRight(t, IsDash);
      forall i | |r| <= i < 24 ensures f[i] == '-' { assert IsDash(t[i]); }
    }
  }
}
