/** The editors of src/apply.rs as they run: loops over the lines of a text that is rewritten in place. */
module TfvarsEditor {
  import opened Wrappers
  import opened Text
  import opened Json
  import opened Tfvars
  import opened TfvarsMap
  import opened TfvarsMapLaws

  /** The public base URL that `normalize_public_base_url_assignment` writes, if any, for what it reads:
      one made of the host name, or an empty one in place of a placeholder. */
  function UrlWritten(dnsName: Option<string>, publicBaseUrl: Option<string>): Option<string> {
    if dnsName.Some? && Trim(dnsName.value) != [] then Some("https://" + dnsName.value)
    else if publicBaseUrl.Some? && IsPlaceholder(publicBaseUrl.value) then Some("")
    else None
  }

  /** The text that `normalize_public_base_url_assignment` leaves. */
  function NormalizedUrl(c: string): string {
    match UrlWritten(Read(c, "dns_name"), Read(c, "public_base_url"))
    case Some(url) => Replace(c, "public_base_url", url)
    case None => c
  }

  predicate IsPlaceholder(url: string) {
    var n := LowerAll(TrimRight(Trim(url), IsSlash));
    n == [] || Contains(n, "example.com") || Contains(n, "localhost") || Contains(n, "127.0.0.1")
  }

  /** A tfvars text under edit. */
  class TfvarsText {
    var contents: string

    constructor (initial: string)
      ensures contents == initial
    {
      contents := initial;
    }

    /** `replace_tfvars_assignment` */
    method ReplaceAssignment(key: string, value: string)
      modifies this
      ensures contents == Replace(old(contents), key, value)
    {
      hide Matches, Lines, Unlines, Join, FirstMatch, Quote;
      var replacement := key + " = " + Quote(value);
      var ls := Lines(contents);
      ghost var at := FirstMatch(ls, key);
      var rewritten: seq<string> := [];
      var replaced := false;
      for n := 0 to |ls|
        invariant replaced <==> at < n
        invariant rewritten == if replaced then ls[..at] + [replacement] + ls[at + 1..n] else ls[..n]
      {
        if !replaced && Matches(ls[n], key) {
          rewritten := rewritten + [replacement];
          replaced := true;
        } else {
          rewritten := rewritten + [ls[n]];
        }
      }
      if !replaced {
        rewritten := rewritten + [replacement];
      }
      assert rewritten == ls[..at] + [replacement] + Drop(ls, at + 1);
      contents := Join(rewritten);
      JoinUnlines(rewritten);
      contents := contents + "\n";
    }

    /** `replace_tfvars_map_assignment` */
    method ReplaceMapAssignment(key: string, values: Entries)
      modifies this
      ensures contents == ReplaceMap(old(contents), key, values)
    {
      hide Matches, Lines, Unlines, Join, IsClose, OpensBlock, Block, LongBlock;
      var replacement := RenderMapAssignment(key, values);
      var ls := Lines(contents);
      ghost var at := FirstMatch(ls, key);
      var rewritten: seq<string> := [];
      var replaced := false;
      var skippingMultiline := false;
      for n := 0 to |ls|
        invariant replaced <==> at < n
        invariant !replaced ==> !skippingMultiline && rewritten == ls[..n]
        invariant replaced ==> skippingMultiline == SkipsAt(ls, at, n)
        invariant replaced ==> rewritten == ls[..at] + [replacement] + KeptUpTo(ls, at, n)
      {
        if skippingMultiline {
          if IsClose(ls[n]) {
            skippingMultiline := false;
          }
          SkipStep(ls, at, n);
        } else if !replaced && Matches(ls[n], key) {
          rewritten := rewritten + [replacement];
          replaced := true;
          if OpensBlock(ls[n]) {
            skippingMultiline := true;
          }
          SkipStart(ls, n);
        } else {
          rewritten := rewritten + [ls[n]];
          if replaced { SkipStep(ls, at, n); }
        }
      }
      if !replaced {
        rewritten := rewritten + [replacement];
      } else {
        KeptUpToAll(ls, at);
      }
      assert rewritten == ls[..at] + [replacement] + KeptBelow(ls, at);
      UnlinesBlock(ls[..at], Block(key, values), KeptBelow(ls, at));
      contents := Join(rewritten);
      JoinUnlines(rewritten);
      contents := contents + "\n";
    }

    /** `replace_tfvars_assignment_literal` */
    method ReplaceAssignmentLiteral(key: string, literal: string)
      modifies this
      ensures contents == ReplaceLiteral(old(contents), key, literal)
    {
      hide LitMatches, Lines, Join, LitOpens, LitCloses, LitFirst, LitKeptBelow, ReplaceLiteral;
      var replacement := key + " = " + literal;
      var ls := Lines(contents);
      ghost var at := LitFirst(ls, key);
      var rewritten: seq<string> := [];
      var replaced := false;
      var n := 0;
      while n < |ls|
        invariant n <= |ls| && contents == old(contents)
        invariant replaced <==> at < n
        invariant !replaced ==> rewritten == ls[..n]
        invariant replaced ==> LitResume(ls, at) <= n
        invariant replaced ==> rewritten == ls[..at] + [replacement] + ls[LitResume(ls, at)..n]
      {
        var line := ls[n];
        n := n + 1;
        if !replaced && LitMatches(line, key) {
          rewritten := rewritten + [replacement];
          if LitOpens(line) {
            var closed := false;
            while n < |ls| && !closed
              invariant at < n <= |ls| && contents == old(contents)
              invariant !closed ==> forall i | at < i < n :: !LitCloses(ls[i])
              invariant closed ==> n == LitResume(ls, at)
              decreases |ls| - n, !closed
            {
              if LitCloses(ls[n]) {
                closed := true;
                LitResumeAt(ls, at, n);
              }
              n := n + 1;
            }
            if !closed { LitResumeAt(ls, at, |ls|); }
          }
          replaced := true;
        } else {
          rewritten := rewritten + [line];
        }
      }
      if !replaced {
        if contents != [] && contents[|contents| - 1] != '\n' {
          rewritten := rewritten + [""];
        }
        rewritten := rewritten + [replacement];
      }
      ghost var pieces := SetLiteral(ls, key, [replacement], Unterminated(contents));
      assert rewritten == pieces;
      var joined := Join(rewritten);
      UnfoldLiteral(contents, key, literal, ls, pieces);
      if !EndsWith(joined, "\n") {
        joined := joined + "\n";
      }
      contents := joined;
    }

    /** `read_tfvars_assignment` */
    method ReadAssignment(key: string) returns (value: Option<string>)
      ensures value == Read(contents, key)
    {
      hide Lines, Value;
      var ls := Lines(contents);
      for n := 0 to |ls|
        invariant Scan(ls, key) == Scan(ls[n..], key)
      {
        assert ls[n..][1..] == ls[n + 1..];
        var trimmed := Trim(ls[n]);
        if trimmed == [] || trimmed[0] == '#' || StartsWith(trimmed, "//") {
          continue;
        }
        var eq := IndexOf(trimmed, '=');
        if eq == |trimmed| {
          return None;
        }
        if Trim(trimmed[..eq]) != key {
          continue;
        }
        return Some(Value(trimmed[eq + 1..]));
      }
      return None;
    }

    /** `normalize_public_base_url_assignment` */
    method NormalizePublicBaseUrl()
      modifies this
      ensures contents == NormalizedUrl(old(contents))
    {
      hide Read, Replace, TrimBoth;
      var dnsName := ReadAssignment("dns_name");
      var publicBaseUrl := ReadAssignment("public_base_url");
      if dnsName.Some? && Trim(dnsName.value) != [] {
        ReplaceAssignment("public_base_url", "https://" + dnsName.value);
        return;
      }
      if publicBaseUrl.Some? {
        if IsPlaceholder(publicBaseUrl.value) {
          ReplaceAssignment("public_base_url", "");
        }
      }
    }
  }

  /** The replacement text of the map editor: one string that holds all lines of the block. */
  method RenderMapAssignment(key: string, values: Entries) returns (replacement: string)
    ensures replacement == Join(Block(key, values))
  {
    hide Join, Unlines;
    if values == [] {
      replacement := key + " = {}";
      JoinOne(replacement);
    } else {
      var rendered := RenderTerraformMap(values);
      replacement := key + " = " + rendered;
      RenderMapIsBlock(key, values);
    }
  }

  lemma JoinOne(l: string)
    ensures Join([l]) == l
  {
  }

  /** `render_terraform_map` */
  method RenderTerraformMap(m: Entries) returns (out: string)
    ensures out == RenderMap(m)
  {
    hide Unlines, EntryLine, EntryLines;
    out := "{\n";
    UnlinesEntries(m, 0);
    for i := 0 to |m|
      invariant out == "{\n" + Unlines(EntryLines(m[..i]))
    {
      UnlinesEntries(m, i + 1);
      ghost var before, line := Unlines(EntryLines(m[..i])), EntryLine(m[i]);
      assert "{\n" + before + line + "\n" == "{\n" + (before + line + "\n");
      out := out + EntryLine(m[i]) + "\n";
    }
    assert m[..|m|] == m;
    out := out + "}";
  }

  lemma UnlinesEntries(m: Entries, n: nat)
    requires n <= |m|
    ensures Unlines(EntryLines(m[..n])) ==
            if n == 0 then "" else Unlines(EntryLines(m[..n - 1])) + EntryLine(m[n - 1]) + "\n"
  {
    hide EntryLine;
    if n > 0 {
      assert m[..n][..n - 1] == m[..n - 1];
      UnlinesConcat(EntryLines(m[..n - 1]), [EntryLine(m[n - 1])]);
      UnlinesOne(EntryLine(m[n - 1]));
    }
  }

  // ---------- the flags of the map editor ----------

  /** After n lines, the editor is still inside the map that begins at line at. */
  ghost predicate SkipsAt(ls: seq<string>, at: nat, n: nat)
    requires at < n <= |ls|
  {
    OpensBlock(ls[at]) && forall i | at < i < n :: !IsClose(ls[i])
  }

  /** The lines below at that the editor has kept after n lines. */
  ghost function KeptUpTo(ls: seq<string>, at: nat, n: nat): seq<string>
    requires at < n <= |ls|
  {
    if !OpensBlock(ls[at]) then ls[at + 1..n] else AfterClose(ls[at + 1..n])
  }

  lemma SkipStart(ls: seq<string>, at: nat)
    requires at < |ls|
    ensures SkipsAt(ls, at, at + 1) == OpensBlock(ls[at]) && KeptUpTo(ls, at, at + 1) == []
  {
    hide OpensBlock;
    assert ls[at + 1..at + 1] == [];
  }

  lemma SkipStep(ls: seq<string>, at: nat, n: nat)
    requires at < n < |ls|
    ensures SkipsAt(ls, at, n + 1) == (SkipsAt(ls, at, n) && !IsClose(ls[n]))
    ensures KeptUpTo(ls, at, n + 1) == KeptUpTo(ls, at, n) + (if SkipsAt(ls, at, n) then [] else [ls[n]])
  {
    hide OpensBlock, IsClose, First;
    var a, b := ls[at + 1..n], ls[at + 1..n + 1];
    assert b == a + [ls[n]];
    assert forall i | 0 <= i < |a| :: a[i] == ls[at + 1 + i];
    var f := First(a, IsClose);
    if f < |a| {
      FirstIs(b, IsClose, f);
      assert IsClose(ls[at + 1 + f]);
    } else {
      assert forall i | at < i < n :: ls[i] == a[i - at - 1];
      FirstIs(b, IsClose, if IsClose(ls[n]) then |a| else |b|);
    }
  }

  lemma KeptUpToAll(ls: seq<string>, at: nat)
    requires at < |ls|
    ensures KeptUpTo(ls, at, |ls|) == KeptBelow(ls, at)
  {
    hide OpensBlock, IsClose, First;
    assert ls[at + 1..|ls|] == ls[at + 1..];
  }

  // ---------- the inner loop of the literal editor ----------

  lemma UnfoldLiteral(c: string, k: string, literal: string, ls: seq<string>, pieces: seq<string>)
    requires ls == Lines(c) && pieces == SetLiteral(ls, k, [k + " = " + literal], Unterminated(c))
    ensures ReplaceLiteral(c, k, literal) == Terminate(Join(pieces))
  {
  }

  /** Where the literal editor goes on after the line at. */
  function LitResume(ls: seq<string>, at: nat): (r: nat)
    requires at < |ls|
    ensures at < r <= |ls| && ls[r..] == LitKeptBelow(ls, at)
  {
    if !LitOpens(ls[at]) then at + 1
    else var r := at + 1 + First(ls[at + 1..], LitCloses) + 1; if r <= |ls| then r else |ls|
  }

  lemma LitResumeAt(ls: seq<string>, at: nat, n: nat)
    requires at < n <= |ls| && LitOpens(ls[at])
    requires forall i | at < i < n :: !LitCloses(ls[i])
    requires n < |ls| ==> LitCloses(ls[n])
    ensures LitResume(ls, at) == if n < |ls| then n + 1 else |ls|
  {
    hide LitOpens, LitCloses, First;
    FirstIs(ls[at + 1..], LitCloses, n - at - 1);
  }
}
