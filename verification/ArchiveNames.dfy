/** Normalising archive entry names to detect every spelling of the reserved
    descriptor path (`normalized_archive_path`, src/binary_artifact.rs). Case
    folding is a parameter, `lower`. */
module ArchiveNames {
  import opened Prelude
  import opened Text

  /** Win32 strips trailing dots and spaces. */
  function Stripped(raw: string): string {
    TrimEnd(raw, c => c == '.' || c == ' ')
  }

  /** Resolve raw components from left to right over those kept so far; a ".."
      with nothing to remove has no result. */
  function Resolve(lower: Fold, raws: seq<string>, kept: seq<string>): Option<seq<string>> {
    if raws == [] then Some(kept)
    else if raws[0] == "" || raws[0] == "." then Resolve(lower, raws[1..], kept)
    else if raws[0] == ".." then
      if kept == [] then None else Resolve(lower, raws[1..], kept[..|kept| - 1])
    else if Stripped(raws[0]) == "" then Resolve(lower, raws[1..], kept)
    else Resolve(lower, raws[1..], kept + [lower(Stripped(raws[0]))])
  }

  /** The components as written, whichever separator delimits them. */
  function Pieces(path: string): seq<string> {
    Split(ReplaceChar(path, '\\', "/"), '/')
  }

  function Normalized(lower: Fold, path: string): Option<string> {
    var components := Resolve(lower, Pieces(path), []);
    if components.None? then None else Some(Join(components.value, "/"))
  }

  method NormalizedArchivePath(lower: Fold, path: string) returns (normalized: Option<string>)
    ensures normalized == Normalized(lower, path)
  {
    var raws := Split(ReplaceChar(path, '\\', "/"), '/');
    var components: seq<string> := [];
    var i := 0;
    while i < |raws|
      invariant 0 <= i <= |raws|
      invariant Resolve(lower, raws[i..], components) == Resolve(lower, raws, [])
    {
      assert raws[i..][0] == raws[i] && raws[i..][1..] == raws[i + 1..];
      var raw := raws[i];
      i := i + 1;
      if raw == "" || raw == "." {
        continue;
      }
      if raw == ".." {
        if components == [] {
          return None;
        }
        components := components[..|components| - 1];
        continue;
      }
      var component := Stripped(raw);
      if component == "" {
        continue;
      }
      components := components + [lower(component)];
    }
    return Some(Join(components, "/"));
  }

  /** A component that every host keeps as it is written. */
  predicate IsPlain(component: string) {
    && component != ""
    && '/' !in component && '\\' !in component
    && component[|component| - 1] != '.' && component[|component| - 1] != ' '
  }

  /** What case folding must respect: plain components fold to plain
      components, once and for all. */
  ghost predicate FoldsComponents(lower: Fold) {
    forall c: string :: IsPlain(c) ==> IsPlain(lower(c)) && lower(lower(c)) == lower(c)
  }

  ghost predicate AllFolded(lower: Fold, components: seq<string>) {
    forall i :: 0 <= i < |components| ==> IsPlain(components[i]) && lower(components[i]) == components[i]
  }

  lemma {:induction false} NoBackslashLeft(path: string)
    ensures '\\' !in ReplaceChar(path, '\\', "/")
  {
    if path != "" {
      NoBackslashLeft(path[1..]);
    }
  }

  lemma {:induction false} PiecesComeFromText(s: string, c: char, i: nat, x: char)
    requires i < |Split(s, c)| && x in Split(s, c)[i]
    ensures x in s
  {
    if s != "" {
      var rest := Split(s[1..], c);
      if s[0] == c {
        PiecesComeFromText(s[1..], c, i - 1, x);
      } else if i > 0 {
        PiecesComeFromText(s[1..], c, i, x);
      } else if x != s[0] {
        assert x in rest[0];
        PiecesComeFromText(s[1..], c, 0, x);
      }
    }
  }

  lemma StrippedIsPlain(raw: string)
    requires '/' !in raw && '\\' !in raw && Stripped(raw) != ""
    ensures IsPlain(Stripped(raw))
  {
  }

  lemma {:induction false} ResolveGivesFolded(lower: Fold, raws: seq<string>, kept: seq<string>)
    requires FoldsComponents(lower) && AllFolded(lower, kept)
    requires forall i :: 0 <= i < |raws| ==> '/' !in raws[i] && '\\' !in raws[i]
    ensures Resolve(lower, raws, kept).Some? ==> AllFolded(lower, Resolve(lower, raws, kept).value)
    decreases |raws|
  {
    if raws != [] {
      if raws[0] == "" || raws[0] == "." || (raws[0] != ".." && Stripped(raws[0]) == "") {
        ResolveGivesFolded(lower, raws[1..], kept);
      } else if raws[0] == ".." {
        if kept != [] {
          ResolveGivesFolded(lower, raws[1..], kept[..|kept| - 1]);
        }
      } else {
        StrippedIsPlain(raws[0]);
        ResolveGivesFolded(lower, raws[1..], kept + [lower(Stripped(raws[0]))]);
      }
    }
  }

  lemma {:induction false} ResolveKeepsFolded(lower: Fold, raws: seq<string>, kept: seq<string>)
    requires AllFolded(lower, raws)
    ensures Resolve(lower, raws, kept) == Some(kept + raws)
    decreases |raws|
  {
    if raws == [] {
      assert kept + raws == kept;
    } else {
      assert IsPlain(raws[0]) && Stripped(raws[0]) == raws[0];
      assert raws[0] != "." && raws[0] != "..";
      ResolveKeepsFolded(lower, raws[1..], kept + [raws[0]]);
      assert kept + [raws[0]] + raws[1..] == kept + raws;
    }
  }

  lemma {:induction false} NothingToReplace(s: string)
    requires '\\' !in s
    ensures ReplaceChar(s, '\\', "/") == s
  {
    if s != "" {
      NothingToReplace(s[1..]);
      assert [s[0]] + s[1..] == s;
    }
  }

  lemma {:induction false} JoinHasNoBackslash(pieces: seq<string>)
    requires forall i :: 0 <= i < |pieces| ==> '\\' !in pieces[i]
    ensures '\\' !in Join(pieces, "/")
  {
    if |pieces| > 1 {
      JoinHasNoBackslash(pieces[1..]);
    }
  }

  lemma ResolvedIsFolded(lower: Fold, path: string)
    requires FoldsComponents(lower)
    ensures Resolve(lower, Pieces(path), []).Some? ==> AllFolded(lower, Resolve(lower, Pieces(path), []).value)
  {
    var text := ReplaceChar(path, '\\', "/");
    var raws := Split(text, '/');
    NoBackslashLeft(path);
    forall i | 0 <= i < |raws|
      ensures '/' !in raws[i] && '\\' !in raws[i]
    {
      if '\\' in raws[i] {
        PiecesComeFromText(text, '/', i, '\\');
      }
    }
    ResolveGivesFolded(lower, raws, []);
  }

  /** Normalising is idempotent: a normal form is its own normal form. */
  lemma NormalizingIsIdempotent(lower: Fold, path: string)
    requires FoldsComponents(lower) && Normalized(lower, path).Some?
    ensures Normalized(lower, Normalized(lower, path).value) == Normalized(lower, path)
  {
    ResolvedIsFolded(lower, path);
    var raws := Pieces(path);
    var components := Resolve(lower, raws, []).value;
    var joined := Join(components, "/");
    JoinHasNoBackslash(components);
    NothingToReplace(joined);
    if components == [] {
      assert Split(joined, '/') == [""] && [""][1..] == [];
    } else {
      SplitUndoesJoin(components, '/');
      ResolveKeepsFolded(lower, components, []);
      assert [] + components == components;
    }
  }

  // ---- Which spellings share a normal form ----

  /** Two names are taken for one exactly when they resolve to the same
      components: joining them hides nothing. */
  lemma AliasIffSameComponents(lower: Fold, a: string, b: string)
    requires FoldsComponents(lower)
    ensures Normalized(lower, a) == Normalized(lower, b)
            <==> Resolve(lower, Pieces(a), []) == Resolve(lower, Pieces(b), [])
  {
    hide Pieces, Resolve;
    ResolvedIsFolded(lower, a);
    ResolvedIsFolded(lower, b);
    var x, y := Resolve(lower, Pieces(a), []), Resolve(lower, Pieces(b), []);
    if x.Some? && y.Some? && Join(x.value, "/") == Join(y.value, "/") {
      assert Split("", '/') == [""];
      if x.value != [] {
        SplitUndoesJoin(x.value, '/');
      }
      if y.value != [] {
        SplitUndoesJoin(y.value, '/');
      }
    }
  }

  lemma PiecesOfJoined(a: string, b: string, separator: char)
    requires separator == '/' || separator == '\\'
    ensures Pieces(a + [separator] + b) == Pieces(a) + Pieces(b)
  {
    hide Split;
    assert ReplaceChar([separator], '\\', "/") == "/" by {
      assert [separator][1..] == [];
    }
    ReplaceCharAppend(a, [separator], '\\', "/");
    ReplaceCharAppend(a + [separator], b, '\\', "/");
    SplitOfJoined(ReplaceChar(a, '\\', "/"), ReplaceChar(b, '\\', "/"), '/');
  }

  lemma PiecesOfComponent(component: string)
    requires '/' !in component && '\\' !in component
    ensures Pieces(component) == [component]
  {
    NothingToReplace(component);
    SplitOfPiece(component, '/');
  }

  lemma {:induction false} ResolveAppend(lower: Fold, a: seq<string>, b: seq<string>, kept: seq<string>)
    ensures Resolve(lower, a + b, kept)
         == if Resolve(lower, a, kept).None? then None else Resolve(lower, b, Resolve(lower, a, kept).value)
    decreases |a|
  {
    if a == [] {
      assert a + b == b;
    } else {
      var rest := a[1..];
      assert (a + b)[0] == a[0] && (a + b)[1..] == rest + b;
      ResolveAppend(lower, rest, b, kept);
      ResolveAppend(lower, rest, b, kept + [lower(Stripped(a[0]))]);
      if kept != [] {
        ResolveAppend(lower, rest, b, kept[..|kept| - 1]);
      }
    }
  }

  /** Paths whose middle components do the same to whatever is kept so far. */
  lemma MiddleDecides(lower: Fold, before: string, m: seq<string>, n: seq<string>, after: string)
    requires forall kept :: Resolve(lower, m, kept) == Resolve(lower, n, kept)
    ensures Resolve(lower, Pieces(before) + m + Pieces(after), []) == Resolve(lower, Pieces(before) + n + Pieces(after), [])
  {
    hide Pieces, Resolve;
    ResolveAppend(lower, Pieces(before) + m, Pieces(after), []);
    ResolveAppend(lower, Pieces(before) + n, Pieces(after), []);
    ResolveAppend(lower, Pieces(before), m, []);
    ResolveAppend(lower, Pieces(before), n, []);
  }

  /** Either separator will do. */
  lemma SeparatorsAreAlike(lower: Fold, before: string, after: string)
    ensures Normalized(lower, before + "\\" + after) == Normalized(lower, before + "/" + after)
  {
    hide Split, Resolve;
    PiecesOfJoined(before, after, '/');
    PiecesOfJoined(before, after, '\\');
  }

  /** Empty, ".", or made of dots and spaces only, ".." aside. */
  predicate IsIdle(component: string) {
    component != ".." && Stripped(component) == ""
  }

  /** An idle component leaves no trace. */
  lemma IdleComponentsVanish(lower: Fold, before: string, component: string, after: string)
    requires '/' !in component && '\\' !in component && IsIdle(component)
    ensures Normalized(lower, before + "/" + component + "/" + after) == Normalized(lower, before + "/" + after)
  {
    hide Split;
    PiecesOfJoined(before + "/" + component, after, '/');
    PiecesOfJoined(before, component, '/');
    PiecesOfJoined(before, after, '/');
    PiecesOfComponent(component);
    forall kept
      ensures Resolve(lower, [component], kept) == Resolve(lower, [], kept)
    {
      assert [component][1..] == [];
    }
    MiddleDecides(lower, before, [component], [], after);
    assert Pieces(before) + [] + Pieces(after) == Pieces(before) + Pieces(after);
  }

  /** A component and the ".." after it cancel. */
  lemma ParentCancels(lower: Fold, before: string, component: string, after: string)
    requires '/' !in component && '\\' !in component && Stripped(component) != ""
    ensures Normalized(lower, before + "/" + component + "/../" + after) == Normalized(lower, before + "/" + after)
  {
    hide Split;
    var path := before + "/" + component + "/" + ".." + "/" + after;
    assert before + "/" + component + "/../" + after == path;
    PiecesOfJoined(before + "/" + component + "/" + "..", after, '/');
    PiecesOfJoined(before + "/" + component, "..", '/');
    PiecesOfJoined(before, component, '/');
    PiecesOfJoined(before, after, '/');
    PiecesOfComponent(component);
    PiecesOfComponent("..");
    forall kept
      ensures Resolve(lower, [component, ".."], kept) == Resolve(lower, [], kept)
    {
      var folded := lower(Stripped(component));
      assert [component, ".."][1..] == [".."] && [".."][1..] == [];
      assert (kept + [folded])[..|kept + [folded]| - 1] == kept;
    }
    MiddleDecides(lower, before, [component, ".."], [], after);
    assert Pieces(before) + [] + Pieces(after) == Pieces(before) + Pieces(after);
    assert Pieces(path) == Pieces(before) + [component, ".."] + Pieces(after);
  }

  lemma {:induction false} StrippedTail(component: string, tail: string)
    requires forall i :: 0 <= i < |tail| ==> tail[i] == '.' || tail[i] == ' '
    ensures Stripped(component + tail) == Stripped(component)
  {
    if tail != "" {
      var shorter := tail[..|tail| - 1];
      assert (component + tail)[..|component + tail| - 1] == component + shorter;
      StrippedTail(component, shorter);
    } else {
      assert component + tail == component;
    }
  }

  /** Trailing dots and spaces do not tell names apart. */
  lemma TrailingDotsVanish(lower: Fold, before: string, component: string, tail: string, after: string)
    requires '/' !in component && '\\' !in component && Stripped(component) != ""
    requires forall i :: 0 <= i < |tail| ==> tail[i] == '.' || tail[i] == ' '
    ensures Normalized(lower, before + "/" + (component + tail) + "/" + after)
         == Normalized(lower, before + "/" + component + "/" + after)
  {
    hide Split;
    PiecesOfJoined(before + "/" + (component + tail), after, '/');
    PiecesOfJoined(before + "/" + component, after, '/');
    PiecesOfJoined(before, component + tail, '/');
    PiecesOfJoined(before, component, '/');
    PiecesOfComponent(component + tail);
    PiecesOfComponent(component);
    StrippedTail(component, tail);
    forall kept
      ensures Resolve(lower, [component + tail], kept) == Resolve(lower, [component], kept)
    {
      assert [component + tail][1..] == [] && [component][1..] == [];
    }
    MiddleDecides(lower, before, [component + tail], [component], after);
  }

  /** Case is folded: components that fold alike are alike. */
  lemma FoldedComponentsAreAlike(lower: Fold, before: string, component: string, other: string, after: string)
    requires '/' !in component && '\\' !in component && '/' !in other && '\\' !in other
    requires Stripped(component) != "" && Stripped(other) != "" && lower(Stripped(component)) == lower(Stripped(other))
    ensures Normalized(lower, before + "/" + component + "/" + after) == Normalized(lower, before + "/" + other + "/" + after)
  {
    hide Split;
    PiecesOfJoined(before + "/" + component, after, '/');
    PiecesOfJoined(before + "/" + other, after, '/');
    PiecesOfJoined(before, component, '/');
    PiecesOfJoined(before, other, '/');
    PiecesOfComponent(component);
    PiecesOfComponent(other);
    forall kept
      ensures Resolve(lower, [component], kept) == Resolve(lower, [other], kept)
    {
      assert [component][1..] == [] && [other][1..] == [];
    }
    MiddleDecides(lower, before, [component], [other], after);
  }

  function Folded(lower: Fold, components: seq<string>): (r: seq<string>)
    ensures |r| == |components| && forall i :: 0 <= i < |r| ==> r[i] == lower(components[i])
  {
    if components == [] then [] else [lower(components[0])] + Folded(lower, components[1..])
  }

  lemma PlainIsOrdinary(s: string)
    requires IsPlain(s)
    ensures s != "" && s != "." && s != ".." && Stripped(s) == s
  {
  }

  lemma {:induction false} ResolvePlain(lower: Fold, components: seq<string>, kept: seq<string>)
    requires forall i :: 0 <= i < |components| ==> IsPlain(components[i])
    ensures Resolve(lower, components, kept) == Some(kept + Folded(lower, components))
    decreases |components|
  {
    hide IsPlain, Stripped;
    if components == [] {
      assert kept + Folded(lower, components) == kept;
    } else {
      PlainIsOrdinary(components[0]);
      ResolvePlain(lower, components[1..], kept + [lower(components[0])]);
      assert kept + [lower(components[0])] + Folded(lower, components[1..]) == kept + Folded(lower, components);
    }
  }

  /** A path of plain components has exactly those, folded, as its normal form. */
  lemma PlainPathIsFolded(lower: Fold, components: seq<string>)
    requires components != [] && forall i :: 0 <= i < |components| ==> IsPlain(components[i])
    ensures Normalized(lower, Join(components, "/")) == Some(Join(Folded(lower, components), "/"))
  {
    hide Join, Resolve;
    JoinHasNoBackslash(components);
    NothingToReplace(Join(components, "/"));
    SplitUndoesJoin(components, '/');
    ResolvePlain(lower, components, []);
    assert [] + Folded(lower, components) == Folded(lower, components);
  }

  /** A path that climbs above its root has no normal form. */
  lemma ClimbingHasNoForm(lower: Fold, after: string)
    ensures Normalized(lower, "../" + after).None?
  {
    hide Split;
    PiecesOfJoined("..", after, '/');
    PiecesOfComponent("..");
    assert ".." + "/" + after == "../" + after;
    assert ([".."] + Pieces(after))[0] == "..";
  }
}
