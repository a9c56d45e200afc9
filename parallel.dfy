/**
 * The three-parallel chapter format: paragraph i of the classical text, of the
 * modern Chinese translation and of the English translation make up group i,
 * one paragraph per line, and groups are separated by a blank line.
 *
 * The encoder is `create_parallel_content` (migrate_data.py) and, behind a
 * guard, `create_three_parallel_content` (batch_import.py, see BatchImport);
 * the decoder is `convert_three_parallel_to_separate` (migrate_data.py).
 */
module Parallel {
  import opened Text

  /** `[p.strip() for p in ps if p.strip()]`: the non-blank pieces, trimmed. */
  function NonBlankStripped(ps: seq<string>): (r: seq<string>)
    ensures |r| <= |ps|
  {
    if ps == [] then []
    else (if Strip(ps[0]) == [] then [] else [Strip(ps[0])]) + NonBlankStripped(ps[1..])
  }

  /** Every piece kept is non-empty and trimmed. */
  lemma {:induction false} NonBlankStrippedClean(ps: seq<string>)
    ensures forall k :: 0 <= k < |NonBlankStripped(ps)| ==>
              NonBlankStripped(ps)[k] != [] && IsStripped(NonBlankStripped(ps)[k])
  {
    if ps != [] {
      var head := if Strip(ps[0]) == [] then [] else [Strip(ps[0])];
      var rest := NonBlankStripped(ps[1..]);
      var r := NonBlankStripped(ps);
      assert r == head + rest;
      StripStripped(ps[0]);
      NonBlankStrippedClean(ps[1..]);
      forall k | 0 <= k < |r| ensures r[k] != [] && IsStripped(r[k]) {
        if k >= |head| {
          assert r[k] == rest[k - |head|];
          assert rest[k - |head|] != [] && IsStripped(rest[k - |head|]);
        } else {
          assert r[k] == Strip(ps[0]);
        }
      }
    }
  }

  /** The paragraphs of a text: its blank-line separated pieces that are not
      blank, trimmed. */
  function Paragraphs(s: string): seq<string>
  {
    NonBlankStripped(SplitOn(s, "\n\n"))
  }

  /** `ps[i] if i < len(ps) else ""`. */
  function At(ps: seq<string>, i: int): string
  {
    if 0 <= i < |ps| then ps[i] else ""
  }

  /** The lines of a group: the non-empty ones of the three, in the order
      classical, modern Chinese, English. */
  function Present(w: string, z: string, e: string): seq<string>
  {
    (if w != "" then [w] else []) + (if z != "" then [z] else []) + (if e != "" then [e] else [])
  }

  function Group(ws: seq<string>, zs: seq<string>, es: seq<string>, i: int): string
  {
    Join(Present(At(ws, i), At(zs, i), At(es, i)), "\n")
  }

  /** One group per paragraph index, as many as the longest of the three lists. */
  function Groups(ws: seq<string>, zs: seq<string>, es: seq<string>): (gs: seq<string>)
    ensures |gs| == Max3(|ws|, |zs|, |es|)
  {
    seq(Max3(|ws|, |zs|, |es|), i => Group(ws, zs, es, i))
  }

  /** The three-parallel text of a chapter. */
  function Encode(wenyan: string, zh: string, en: string): string
  {
    Join(Groups(Paragraphs(wenyan), Paragraphs(zh), Paragraphs(en)), "\n\n")
  }

  predicate NonEmptyAll(ps: seq<string>) {
    forall k :: 0 <= k < |ps| ==> ps[k] != []
  }

  /** Below the longest list's length some list has a paragraph, so the group
      has a line and is not empty. */
  lemma GroupNonEmpty(ws: seq<string>, zs: seq<string>, es: seq<string>, i: nat)
    requires NonEmptyAll(ws) && NonEmptyAll(zs) && NonEmptyAll(es)
    requires i < Max3(|ws|, |zs|, |es|)
    ensures Present(At(ws, i), At(zs, i), At(es, i)) != []
    ensures Group(ws, zs, es, i) != ""
  {
    var p := Present(At(ws, i), At(zs, i), At(es, i));
    if i < |ws| {
      assert p[0] == ws[i];
    } else if i < |zs| {
      assert p[0] == zs[i];
    } else {
      assert p[0] == es[i];
    }
    assert Join(p, "\n")[..|p[0]|] == p[0] by {
      if |p| > 1 {
        assert Join(p, "\n") == p[0] + ("\n" + Join(p[1..], "\n"));
      }
    }
  }

  /** Every paragraph is non-empty and trimmed. */
  lemma ParagraphsClean(s: string)
    ensures NonEmptyAll(Paragraphs(s))
    ensures forall k :: 0 <= k < |Paragraphs(s)| ==> IsStripped(Paragraphs(s)[k])
  {
    var ps := Paragraphs(s);
    NonBlankStrippedClean(SplitOn(s, "\n\n"));
    assert forall k :: 0 <= k < |ps| ==> ps[k] != [] && IsStripped(ps[k]);
  }

  /** The encoder of migrate_data.py: the paragraphs of each text, then one
      group per index. */
  method CreateParallelContent(wenyan: string, zh: string, en: string) returns (content: string)
    ensures content == Encode(wenyan, zh, en)
  {
    var ws := Paragraphs(wenyan);
    var zs := Paragraphs(zh);
    var es := Paragraphs(en);
    ParagraphsClean(wenyan);
    ParagraphsClean(zh);
    ParagraphsClean(en);
    var groups := ParallelGroups(ws, zs, es);
    content := Join(groups, "\n\n");
  }

  /** The loop of the encoder: paragraph i of each language goes into group i,
      in the order classical, modern Chinese, English, skipping the missing
      ones. The emptiness check on a group never fails, so every index up to
      the longest list's length yields a group. */
  method ParallelGroups(ws: seq<string>, zs: seq<string>, es: seq<string>) returns (groups: seq<string>)
    requires NonEmptyAll(ws) && NonEmptyAll(zs) && NonEmptyAll(es)
    ensures groups == Groups(ws, zs, es)
  {
    var n := Max3(|ws|, |zs|, |es|);
    groups := [];
    var i := 0;
    while i < n
      invariant 0 <= i <= n
      invariant groups == Groups(ws, zs, es)[..i]
    {
      var w := if i < |ws| then ws[i] else "";
      var z := if i < |zs| then zs[i] else "";
      var e := if i < |es| then es[i] else "";
      var group: seq<string> := [];
      if w != "" {
        group := group + [w];
      }
      if z != "" {
        group := group + [z];
      }
      if e != "" {
        group := group + [e];
      }
      assert group == Present(At(ws, i), At(zs, i), At(es, i));
      GroupNonEmpty(ws, zs, es, i);
      if group != [] {
        groups := groups + [Join(group, "\n")];
      }
      assert Groups(ws, zs, es)[..i + 1] == Groups(ws, zs, es)[..i] + [Group(ws, zs, es, i)];
      i := i + 1;
    }
    assert Groups(ws, zs, es)[..n] == Groups(ws, zs, es);
  }

  /** Every group the encoder emits is a non-empty piece of text. */
  lemma EncodedGroupsNonEmpty(wenyan: string, zh: string, en: string)
    ensures var gs := Groups(Paragraphs(wenyan), Paragraphs(zh), Paragraphs(en));
            forall i :: 0 <= i < |gs| ==> gs[i] != ""
  {
    var ws, zs, es := Paragraphs(wenyan), Paragraphs(zh), Paragraphs(en);
    ParagraphsClean(wenyan);
    ParagraphsClean(zh);
    ParagraphsClean(en);
    forall i | 0 <= i < Max3(|ws|, |zs|, |es|) ensures Group(ws, zs, es, i) != "" {
      GroupNonEmpty(ws, zs, es, i);
    }
  }

  /** Inputs with no paragraph at all (empty or blank texts) encode to "". */
  lemma EncodeBlank(wenyan: string, zh: string, en: string)
    requires Paragraphs(wenyan) == [] && Paragraphs(zh) == [] && Paragraphs(en) == []
    ensures Encode(wenyan, zh, en) == ""
  {
  }

  /** The empty text has no paragraph. */
  lemma ParagraphsOfEmpty()
    ensures Paragraphs("") == []
  {
    assert SplitOn("", "\n\n") == [""];
    assert Strip("") == [];
  }

  // ---------------------------------------------------------------- decoder

  /** The three part lists the decoder collects. */
  datatype Parts = Parts(wenyan: seq<string>, zh: seq<string>, en: seq<string>)

  /** `[line.strip() for line in group.split('\n') if line.strip()]`. */
  function GroupLines(group: string): seq<string>
  {
    NonBlankStripped(SplitOn(group, "\n"))
  }

  /** The 3/2/1-line policy: three or more lines give one part per language and
      the rest are dropped; two lines leave the English part empty; one line
      leaves both translations empty; no line adds nothing. */
  function AddGroup(p: Parts, lines: seq<string>): Parts
  {
    if |lines| >= 3 then Parts(p.wenyan + [lines[0]], p.zh + [lines[1]], p.en + [lines[2]])
    else if |lines| == 2 then Parts(p.wenyan + [lines[0]], p.zh + [lines[1]], p.en + [""])
    else if |lines| == 1 then Parts(p.wenyan + [lines[0]], p.zh + [""], p.en + [""])
    else p
  }

  /** The number of groups with at least one non-blank line. */
  function CountNonBlank(groups: seq<string>): nat
  {
    if groups == [] then 0
    else CountNonBlank(groups[..|groups| - 1]) + (if GroupLines(groups[|groups| - 1]) != [] then 1 else 0)
  }

  /** The parts collected from the groups, in order. The three lists have the
      same length: one entry per group with a non-blank line. */
  function DecodeGroups(groups: seq<string>): (p: Parts)
    ensures |p.wenyan| == CountNonBlank(groups)
    ensures |p.zh| == CountNonBlank(groups)
    ensures |p.en| == CountNonBlank(groups)
  {
    if groups == [] then Parts([], [], [])
    else AddGroup(DecodeGroups(groups[..|groups| - 1]), GroupLines(groups[|groups| - 1]))
  }

  /** The separated texts of a three-parallel text. */
  function Decode(content: string): (string, string, string)
  {
    var p := DecodeGroups(SplitOn(content, "\n\n"));
    (Join(p.wenyan, "\n\n"), Join(p.zh, "\n\n"), Join(p.en, "\n\n"))
  }

  /** The decoder of migrate_data.py, group by group. */
  method ConvertThreeParallelToSeparate(content: string) returns (wenyan: string, zh: string, en: string)
    ensures (wenyan, zh, en) == Decode(content)
  {
    var groups := SplitOn(content, "\n\n");
    var wenyanParts: seq<string> := [];
    var zhParts: seq<string> := [];
    var enParts: seq<string> := [];
    var i := 0;
    while i < |groups|
      invariant 0 <= i <= |groups|
      invariant Parts(wenyanParts, zhParts, enParts) == DecodeGroups(groups[..i])
    {
      var lines := GroupLines(groups[i]);
      if |lines| >= 3 {
        wenyanParts := wenyanParts + [lines[0]];
        zhParts := zhParts + [lines[1]];
        enParts := enParts + [lines[2]];
      } else if |lines| == 2 {
        wenyanParts := wenyanParts + [lines[0]];
        zhParts := zhParts + [lines[1]];
        enParts := enParts + [""];
      } else if |lines| == 1 {
        wenyanParts := wenyanParts + [lines[0]];
        zhParts := zhParts + [""];
        enParts := enParts + [""];
      }
      assert groups[..i + 1][..i] == groups[..i];
      i := i + 1;
    }
    assert groups[..i] == groups;
    wenyan := Join(wenyanParts, "\n\n");
    zh := Join(zhParts, "\n\n");
    en := Join(enParts, "\n\n");
  }

  // ------------------------------------------------------------- round trip

  predicate NoNewline(s: string) {
    forall i :: 0 <= i < |s| ==> s[i] != '\n'
  }

  /** No two line feeds in a row, and none at the end. */
  predicate NoBlankLine(s: string) {
    (s == [] || s[|s| - 1] != '\n')
    && forall i :: 0 <= i < |s| - 1 ==> !(s[i] == '\n' && s[i + 1] == '\n')
  }

  lemma NoNewlineSepFree(s: string)
    requires NoNewline(s)
    ensures SepFree(s, "\n")
  {
    forall i | 0 <= i < |s| ensures !("\n" <= (s + "\n")[i..]) {
      assert (s + "\n")[i..][0] == s[i];
    }
  }

  lemma NoBlankLineSepFree(s: string)
    requires NoBlankLine(s)
    ensures SepFree(s, "\n\n")
  {
    var t := s + "\n\n";
    forall i | 0 <= i < |s| ensures !("\n\n" <= t[i..]) {
      assert t[i..][0] == s[i];
      if i + 1 < |s| {
        assert t[i..][1] == s[i + 1];
      }
    }
  }

  /** A trimmed, non-blank paragraph is kept as it is. */
  lemma NonBlankStrippedKeeps(ps: seq<string>)
    requires forall k :: 0 <= k < |ps| ==> ps[k] != [] && IsStripped(ps[k])
    ensures NonBlankStripped(ps) == ps
  {
    if ps != [] {
      StripIdempotent(ps[0]);
      NonBlankStrippedKeeps(ps[1..]);
      assert [ps[0]] + ps[1..] == ps;
    }
  }

  /** A group of three non-empty lines has no blank line in it. */
  lemma ThreeLinesNoBlankLine(a: string, b: string, c: string)
    requires a != [] && b != [] && c != []
    requires NoNewline(a) && NoNewline(b) && NoNewline(c)
    ensures NoBlankLine(a + "\n" + b + "\n" + c)
  {
    var s := a + "\n" + b + "\n" + c;
    var j := |a| + 1 + |b|;
    assert s[|s| - 1] == c[|c| - 1];
    forall i | 0 <= i < |s| - 1 ensures !(s[i] == '\n' && s[i + 1] == '\n') {
      if i < |a| {
        assert s[i] == a[i];
      } else if i == |a| {
        assert s[i + 1] == b[0];
      } else if i < j - 1 {
        assert s[i] == b[i - |a| - 1];
      } else if i == j - 1 {
        assert s[i + 1] == '\n';
        assert s[i] == b[|b| - 1];
      } else if i == j {
        assert s[i + 1] == c[0];
      } else {
        assert s[i] == c[i - j - 1];
      }
    }
  }

  /** Trimmed paragraphs without line feeds, one from each language: the group
      holds the three of them on three lines and decodes back to them. */
  lemma FullGroup(w: string, z: string, e: string)
    requires w != [] && z != [] && e != []
    requires IsStripped(w) && IsStripped(z) && IsStripped(e)
    requires NoNewline(w) && NoNewline(z) && NoNewline(e)
    ensures Present(w, z, e) == [w, z, e]
    ensures Join([w, z, e], "\n") == w + "\n" + z + "\n" + e
    ensures NoBlankLine(Join([w, z, e], "\n"))
    ensures GroupLines(Join([w, z, e], "\n")) == [w, z, e]
  {
    var ls := [w, z, e];
    assert ls[1..] == [z, e] && ls[1..][1..] == [e];
    assert Join([e], "\n") == e;
    assert Join([z, e], "\n") == z + "\n" + e;
    assert Join(ls, "\n") == w + "\n" + Join([z, e], "\n");
    ThreeLinesNoBlankLine(w, z, e);
    NoNewlineSepFree(w);
    NoNewlineSepFree(z);
    NoNewlineSepFree(e);
    SplitOnJoin(ls, "\n");
    NonBlankStrippedKeeps(ls);
  }

  /** Trimmed, non-blank paragraphs without line feeds. */
  predicate Clean(ps: seq<string>) {
    forall i :: 0 <= i < |ps| ==> ps[i] != [] && IsStripped(ps[i]) && NoNewline(ps[i])
  }

  predicate NoNewlineAll(ps: seq<string>) {
    forall i :: 0 <= i < |ps| ==> NoNewline(ps[i])
  }

  lemma FullGroupAt(ws: seq<string>, zs: seq<string>, es: seq<string>, i: nat)
    requires Clean(ws) && Clean(zs) && Clean(es)
    requires i < |ws| && i < |zs| && i < |es|
    ensures NoBlankLine(Group(ws, zs, es, i))
    ensures GroupLines(Group(ws, zs, es, i)) == [ws[i], zs[i], es[i]]
  {
    assert At(ws, i) == ws[i] && At(zs, i) == zs[i] && At(es, i) == es[i];
    FullGroup(ws[i], zs[i], es[i]);
  }

  /** Decoding the first k groups of clean, equally long paragraph lists gives
      the first k paragraphs of each. */
  lemma {:induction false} DecodeFullGroups(ws: seq<string>, zs: seq<string>, es: seq<string>, k: nat)
    requires |ws| == |zs| == |es| && k <= |ws|
    requires Clean(ws) && Clean(zs) && Clean(es)
    ensures DecodeGroups(Groups(ws, zs, es)[..k]) == Parts(ws[..k], zs[..k], es[..k])
  {
    var gs := Groups(ws, zs, es);
    if k == 0 {
      assert gs[..0] == [];
    } else {
      var i := k - 1;
      DecodeFullGroups(ws, zs, es, i);
      var prev := gs[..i];
      var g := gs[i];
      PrefixSnoc(gs, k);
      var last := prev + [g];
      assert last[..|last| - 1] == prev && last[|last| - 1] == g;
      assert DecodeGroups(gs[..k]) == AddGroup(DecodeGroups(prev), GroupLines(g));
      FullGroupAt(ws, zs, es, i);
      PrefixSnoc(ws, k);
      PrefixSnoc(zs, k);
      PrefixSnoc(es, k);
    }
  }

  lemma CleanParagraphs(s: string)
    requires NoNewlineAll(Paragraphs(s))
    ensures Clean(Paragraphs(s))
  {
    ParagraphsClean(s);
  }

  /** The groups of clean, equally long paragraph lists split and decode back
      into those lists. */
  lemma DecodeJoinedGroups(ws: seq<string>, zs: seq<string>, es: seq<string>)
    requires |ws| == |zs| == |es|
    requires Clean(ws) && Clean(zs) && Clean(es)
    ensures DecodeGroups(SplitOn(Join(Groups(ws, zs, es), "\n\n"), "\n\n")) == Parts(ws, zs, es)
  {
    var gs := Groups(ws, zs, es);
    if |ws| == 0 {
      assert gs == [];
      EmptyDecodes();
    } else {
      assert forall i :: 0 <= i < |gs| ==> SepFree(gs[i], "\n\n") by {
        forall i | 0 <= i < |gs| ensures SepFree(gs[i], "\n\n") {
          FullGroupAt(ws, zs, es, i);
          NoBlankLineSepFree(gs[i]);
        }
      }
      SplitOnJoin(gs, "\n\n");
      DecodeFullGroups(ws, zs, es, |ws|);
      FullPrefix(gs);
      FullPrefix(ws);
      FullPrefix(zs);
      FullPrefix(es);
    }
  }

  /** The empty text decodes to no parts. */
  lemma EmptyDecodes()
    ensures DecodeGroups(SplitOn("", "\n\n")) == Parts([], [], [])
  {
    assert SplitOn("", "\n\n") == [""];
    assert GroupLines("") == [] by {
      assert SplitOn("", "\n") == [""];
      assert Strip("") == [];
    }
    assert [""][..0] == [];
  }

  /** Round trip: when the three texts have as many paragraphs each and no
      trimmed paragraph holds a line feed, decoding the encoded chapter gives
      each language's paragraphs back, rejoined with blank lines. */
  lemma RoundTrip(wenyan: string, zh: string, en: string)
    requires |Paragraphs(wenyan)| == |Paragraphs(zh)| == |Paragraphs(en)|
    requires NoNewlineAll(Paragraphs(wenyan)) && NoNewlineAll(Paragraphs(zh)) && NoNewlineAll(Paragraphs(en))
    ensures Decode(Encode(wenyan, zh, en))
            == (Join(Paragraphs(wenyan), "\n\n"), Join(Paragraphs(zh), "\n\n"), Join(Paragraphs(en), "\n\n"))
  {
    var ws, zs, es := Paragraphs(wenyan), Paragraphs(zh), Paragraphs(en);
    CleanParagraphs(wenyan);
    CleanParagraphs(zh);
    CleanParagraphs(en);
    DecodeJoinedGroups(ws, zs, es);
  }

  /** Unequal counts misalign: with the modern Chinese text missing, the
      English paragraph comes back as the modern Chinese one and the English
      text comes back empty. */
  lemma MissingTranslationShifts(w: string, e: string)
    requires w != [] && e != [] && IsStripped(w) && IsStripped(e)
    requires NoNewline(w) && NoNewline(e)
    ensures Encode(w, "", e) == w + "\n" + e
    ensures Decode(Encode(w, "", e)) == (w, e, "")
  {
    NoNewlineParagraph(w);
    NoNewlineParagraph(e);
    ParagraphsOfEmpty();
    var g := w + "\n" + e;
    assert Present(w, "", e) == [w, e];
    assert Join([w, e], "\n") == g by {
      assert [w, e][1..] == [e];
    }
    assert Groups([w], [], [e]) == [g];
    assert Encode(w, "", e) == g;
    assert NoBlankLine(g) by {
      forall i | 0 <= i < |g| - 1 ensures !(g[i] == '\n' && g[i + 1] == '\n') {
        if i < |w| {
          assert g[i] == w[i];
        } else if i == |w| {
          assert g[i + 1] == e[0];
        } else {
          assert g[i] == e[i - |w| - 1];
        }
      }
      assert g[|g| - 1] == e[|e| - 1];
    }
    NoBlankLineSepFree(g);
    SplitOnSepFree(g, "\n\n");
    assert GroupLines(g) == [w, e] by {
      NoNewlineSepFree(w);
      NoNewlineSepFree(e);
      assert [w, e][1..] == [e];
      SplitOnJoin([w, e], "\n");
      NonBlankStrippedKeeps([w, e]);
    }
    assert [g][..0] == [];
    assert DecodeGroups([g]) == Parts([w], [e], [""]);
  }

  /** A trimmed, non-blank text without line feeds is one paragraph. */
  lemma NoNewlineParagraph(p: string)
    requires p != [] && IsStripped(p) && NoNewline(p)
    ensures Paragraphs(p) == [p]
  {
    assert NoBlankLine(p);
    NoBlankLineSepFree(p);
    SplitOnSepFree(p, "\n\n");
    NonBlankStrippedKeeps([p]);
  }
}
