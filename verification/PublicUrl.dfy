/** The public base URL in the written file: the last step of a run reads the host name and the URL that
    the layers left, and sets the URL once more. */
module PublicUrl {
  import opened Wrappers
  import opened Text
  import opened Json
  import opened Tfvars
  import opened TfvarsScalar
  import opened TfvarsEditor
  import opened Materialize
  import opened Reading

  /** The last step leaves what is read for every key but the URL. */
  lemma UrlKeepsRead(t: string, j: string)
    requires j != URL_KEY
    ensures Read(NormalizedUrl(t), j) == Read(t, j)
  {
    hide Lines, Replace, IsIdent, Read, UrlWritten;
    ScalarKeys();
    var url := UrlWritten(Read(t, DNS_KEY), Read(t, URL_KEY));
    if url.Some? { ReadFrame(t, URL_KEY, url.value, j); }
  }

  /** The last step in terms of the text that the layers left. */
  lemma UrlStep(t: string)
    ensures var url := UrlWritten(Read(t, DNS_KEY), Read(t, URL_KEY));
            CanonLine(Lines(NormalizedUrl(t)), URL_KEY) ==
              (if url.Some? then Some(RenderScalar(URL_KEY, url.value)) else CanonLine(Lines(t), URL_KEY)) &&
            Read(NormalizedUrl(t), URL_KEY) ==
              if url.Some? && Above(Lines(t), URL_KEY).Passed? then Some(Value(" " + Quote(url.value)))
              else Read(t, URL_KEY)
  {
    hide Lines, Replace, IsIdent, Read, UrlWritten, Above, CanonLine, RenderScalar, Value, Quote;
    ScalarKeys();
    var url := UrlWritten(Read(t, DNS_KEY), Read(t, URL_KEY));
    if url.Some? {
      CanonLineReplace(t, URL_KEY, url.value, URL_KEY);
      ReadWritten(t, URL_KEY, url.value);
    }
  }

  /** What is read for the URL in the written file, told from the example, the layers and the maps. A search
      that gets to the written line finds the URL of the host name, if there is one; else nothing in place
      of a placeholder, and any other URL as it was. */
  lemma WrittenUrl(c: Config, w: World, existing: Option<string>)
    requires IdentKeys(w.overrides) && EmptiesTidy(c, w) && Materialized(c, w, existing).Written?
    ensures var prefix := ResolvePrefix(c, w, existing);
            var dns, seen := Seen(c, w, prefix, DNS_KEY), Seen(c, w, prefix, URL_KEY);
            Read(Materialized(c, w, existing).text, URL_KEY) ==
            if !Reach(c, w, URL_KEY).Passed? then seen
            else if dns.Some? && Trim(dns.value) != [] then Some(Value(" " + Quote("https://" + dns.value)))
            else if seen.Some? && IsPlaceholder(seen.value) then Some("")
            else seen
  {
    hide Lines, IsIdent, Read, Layered, NormalizedUrl, ResolvePrefix, CanonLine, RenderScalar, Value, Quote, Reach,
      EmptiesTidy, Above, Seen, IsPlaceholder, TrimBoth, Plain;
    var prefix := ResolvePrefix(c, w, existing);
    ScalarKeys();
    UrlStep(Layered(c, w, prefix));
    ReadLayered(c, w, prefix, DNS_KEY);
    ReadLayered(c, w, prefix, URL_KEY);
    LayeredReach(c, w, prefix, URL_KEY);
    ReadBackValue("");
    NothingIsPlain();
  }

  // ---------- placeholders ----------

  /** A URL that stands for none and is not empty. */
  predicate IsLeft(url: Option<string>) { url.Some? && url.value != [] && IsPlaceholder(url.value) }

  /** A host name that makes a URL a placeholder, and a URL that names such a host. */
  predicate NamesPlaceholder(name: string) {
    var n := LowerAll(name);
    Contains(n, "example.com") || Contains(n, "localhost") || Contains(n, "127.0.0.1")
  }

  predicate OccursAt(s: string, p: string, i: nat) {
    i + |p| <= |s| && forall n | 0 <= n < |p| :: s[i + n] == p[n]
  }

  lemma ContainsAt(s: string, p: string)
    ensures Contains(s, p) <==> exists i: nat :: OccursAt(s, p, i)
  {
    if Contains(s, p) {
      var i: nat :| i <= |s| && p <= s[i..];
      assert forall n | 0 <= n < |p| :: s[i + n] == s[i..][n];
      assert OccursAt(s, p, i);
    }
    if i: nat :| OccursAt(s, p, i) {
      assert p <= s[i..];
    }
  }

  /** Text around a pattern that begins and ends otherwise does not matter to finding the pattern. */
  lemma SameOccurrences(m: string, lo: nat, hi: nat, p: string)
    requires lo <= |m| && hi <= |m| && p != []
    requires forall i | 0 <= i < lo :: m[i] != p[0]
    requires forall i | hi <= i < |m| :: m[i] != p[|p| - 1]
    ensures Contains(m[..hi], p) <==> Contains(m[lo..], p)
  {
    hide Contains;
    ContainsAt(m[..hi], p);
    ContainsAt(m[lo..], p);
    if i: nat :| OccursAt(m[..hi], p, i) {
      assert m[i + 0] == p[0];
      assert OccursAt(m[lo..], p, i - lo);
    }
    if i: nat :| OccursAt(m[lo..], p, i) {
      assert m[lo + i + (|p| - 1)] == m[lo..][i + (|p| - 1)];
      assert OccursAt(m[..hi], p, lo + i);
    }
  }

  /** Where the URL of a host name ends when it is trimmed. */
  lemma UrlSpan(name: string) returns (hi: nat)
    ensures var s := "https://" + name;
            8 <= |s| && 0 < hi <= |s| && TrimRight(Trim(s), IsSlash) == s[..hi] &&
            forall i | hi <= i < |s| :: IsSpace(s[i]) || IsSlash(s[i])
  {
    hide TrimLeft, TrimRight, IsSpace;
    var s := "https://" + name;
    assert s[0] == 'h' && !IsSpace('h') by { HostStart(); }
    TrimLeftIs(s, IsSpace, 0);
    assert s[0..] == s;
    var t := TrimRight(s, IsSpace);
    assert t != [] && t[0] == 'h' && !IsSlash('h');
    var u := TrimRight(t, IsSlash);
    hi := |u|;
    forall i | hi <= i < |s| ensures IsSpace(s[i]) || IsSlash(s[i]) {
      if i < |t| { assert t[i] == s[i]; }
    }
  }

  lemma HostStart()
    ensures !IsSpace('h')
  {
  }

  /** A URL made of a host name is a placeholder exactly when the name itself says so. */
  lemma UrlOfName(name: string)
    ensures IsPlaceholder("https://" + name) <==> NamesPlaceholder(name)
  {
    hide TrimLeft, TrimRight, Contains, IsSpace, ToLower, IsSlash, LowerAll;
    var s := "https://" + name;
    var hi := UrlSpan(name);
    var m := LowerAll(s);
    assert |LowerAll(s[..hi])| == hi && LowerAll(s[..hi]) == m[..hi];
    assert forall i | 0 <= i < |name| :: m[8 + i] == LowerAll(name)[i];
    assert LowerAll(name) == m[8..];
    forall i | 0 <= i < 8 ensures m[i] != 'e' && m[i] != 'l' && m[i] != '1' { SchemeChar(s[i]); }
    forall i | hi <= i < |m| ensures m[i] != 'm' && m[i] != 't' && m[i] != '1' { PaddingChar(s[i]); }
    SameOccurrencesOf(m, hi);
  }

  /** A URL is a placeholder exactly when it names such a host anywhere, or is nothing but slashes. */
  lemma PlaceholderExact(url: string)
    ensures IsPlaceholder(url) <==> NamesPlaceholder(url) || forall c | c in Trim(url) :: c == '/'
  {
    hide TrimLeft, TrimRight, Contains, IsSpace, ToLower, LowerAll;
    var t := Trim(url);
    var u := TrimRight(t, IsSlash);
    var lo := Inside(url);
    var hi, m := lo + |u|, LowerAll(url);
    assert u == url[lo..hi];
    assert LowerAll(u) == m[..hi][lo..];
    forall i | 0 <= i < |m| && (i < lo || hi <= i)
      ensures m[i] != 'm' && m[i] != 't' && m[i] != '1' && m[i] != 'e' && m[i] != 'l'
    {
      PaddingChar(url[i]);
    }
    InnerOccurrences(m, lo, hi, "example.com");
    InnerOccurrences(m, lo, hi, "localhost");
    InnerOccurrences(m, lo, hi, "127.0.0.1");
    OnlySlashes(t);
    assert |LowerAll(u)| == |u|;
  }

  lemma OnlySlashes(t: string)
    ensures TrimRight(t, IsSlash) == [] <==> forall c | c in t :: c == '/'
  {
    hide TrimRight;
    if forall c | c in t :: c == '/' {
      assert forall i | 0 <= i < |t| :: t[i] in t;
      TrimRightIs(t, IsSlash, 0);
    } else {
      var c :| c in t && c != '/';
      var n :| 0 <= n < |t| && t[n] == c;
      assert !IsSlash(t[n]);
    }
  }

  /** Where a URL begins that is trimmed on both sides. */
  lemma Inside(url: string) returns (lo: nat)
    ensures var u := TrimRight(Trim(url), IsSlash);
            lo + |u| <= |url| && u == url[lo..lo + |u|] &&
            forall i | 0 <= i < |url| && (i < lo || lo + |u| <= i) :: IsSpace(url[i]) || IsSlash(url[i])
  {
    hide TrimLeft, TrimRight, IsSpace, IsSlash;
    var a := TrimLeft(url, IsSpace);
    var t := TrimRight(a, IsSpace);
    var u := TrimRight(t, IsSlash);
    lo := |url| - |a|;
    assert u == t[..|u|] == a[..|u|];
    assert a == url[lo..];
    forall i | 0 <= i < |url| && (i < lo || lo + |u| <= i) ensures IsSpace(url[i]) || IsSlash(url[i]) {
      if lo <= i { assert url[i] == a[i - lo]; }
    }
  }

  lemma InnerOccurrences(m: string, lo: nat, hi: nat, p: string)
    requires lo <= hi <= |m| && p != []
    requires forall i | 0 <= i < |m| && (i < lo || hi <= i) :: m[i] != p[0] && m[i] != p[|p| - 1]
    ensures Contains(m, p) <==> Contains(m[..hi][lo..], p)
  {
    hide Contains;
    SameOccurrences(m, 0, hi, p);
    assert m[0..] == m && m[..hi][..hi] == m[..hi];
    SameOccurrences(m[..hi], lo, hi, p);
  }

  lemma SchemeChar(c: char)
    requires c in "https://"
    ensures ToLower(c) != 'e' && ToLower(c) != 'l' && ToLower(c) != '1'
  {
  }

  lemma PaddingChar(c: char)
    requires IsSpace(c) || IsSlash(c)
    ensures ToLower(c) != 'm' && ToLower(c) != 't' && ToLower(c) != '1' && ToLower(c) != 'e' && ToLower(c) != 'l'
  {
  }

  lemma SameOccurrencesOf(m: string, hi: nat)
    requires hi <= |m| && 8 <= |m|
    requires forall i | 0 <= i < 8 :: m[i] != 'e' && m[i] != 'l' && m[i] != '1'
    requires forall i | hi <= i < |m| :: m[i] != 'm' && m[i] != 't' && m[i] != '1'
    ensures Contains(m[..hi], "example.com") <==> Contains(m[8..], "example.com")
    ensures Contains(m[..hi], "localhost") <==> Contains(m[8..], "localhost")
    ensures Contains(m[..hi], "127.0.0.1") <==> Contains(m[8..], "127.0.0.1")
  {
    hide Contains;
    SameOccurrences(m, 8, hi, "example.com");
    SameOccurrences(m, 8, hi, "localhost");
    SameOccurrences(m, 8, hi, "127.0.0.1");
  }

  /** When the written file still holds a placeholder that is not empty: if the URL can be seen, exactly
      when it was made of a host name that is one; otherwise exactly when it stood above the place that
      the search gets to, where no edit reaches it. */
  lemma PlaceholderLeft(c: Config, w: World, existing: Option<string>)
    requires IdentKeys(w.overrides) && EmptiesTidy(c, w) && Materialized(c, w, existing).Written?
    ensures var prefix := ResolvePrefix(c, w, existing);
            var dns, seen := Seen(c, w, prefix, DNS_KEY), Seen(c, w, prefix, URL_KEY);
            var left := IsLeft(Read(Materialized(c, w, existing).text, URL_KEY));
            if !Reach(c, w, URL_KEY).Passed? then left <==> IsLeft(seen)
            else if dns.Some? && Trim(dns.value) != [] then
              (left <==> IsLeft(Some(Value(" " + Quote("https://" + dns.value))))) &&
              (Plain(dns.value) ==> (left <==> NamesPlaceholder(dns.value)))
            else !left
  {
    hide Materialized, IsPlaceholder, Seen, Reach, IsIdent, EmptiesTidy, ResolvePrefix, Read, Value, Quote, Plain,
      NamesPlaceholder, TrimBoth;
    WrittenUrl(c, w, existing);
    var dns := Seen(c, w, ResolvePrefix(c, w, existing), DNS_KEY);
    ReadBackValue("");
    NothingIsPlain();
    if dns.Some? && Plain(dns.value) {
      UrlIsPlain(dns.value);
      ReadBackValue("https://" + dns.value);
      UrlOfName(dns.value);
    }
  }

  lemma NothingIsPlain()
    ensures Plain("")
  {
  }

  lemma UrlIsPlain(name: string)
    requires Plain(name)
    ensures Plain("https://" + name)
  {
    var s := "https://" + name;
    forall c | c in s ensures !NeedsEscape(c) && c != '#' {
      if c !in name { assert c in "https://"; }
    }
  }
}
