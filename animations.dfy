/**
 * The animation library of Animations.cs: every `*.ascii` file contributes
 * one list of frames, filed under the character id and type id its name
 * carries. The directory walk and the file reads are replaced by a
 * sequence of (file name without extension, content) pairs.
 */
module Anim {
  import opened Wrappers
  import opened Text

  /** One animation file: its name without extension and its text. */
  datatype AnimationFile = AnimationFile(name: string, content: string)

  /** The two ids a file name carries. */
  datatype NameParts = NameParts(charId: string, typeId: string)

  /** Frames by character id, then by type id; each file adds one list of frames. */
  type FrameTable = map<string, map<string, seq<seq<string>>>>

  /** `fileName.Split('-')`, parts 0 and 1; a name without '-' has one part and indexing part 1 throws. */
  function ParseName(fileName: string): Result<NameParts> {
    var parts := SplitOn(fileName, "-");
    if |parts| < 2 then Err("IndexOutOfRangeException") else Ok(NameParts(parts[0], parts[1]))
  }

  /** The first piece of a split is a prefix of the text. */
  lemma SplitHeadIsPrefix(s: string, sep: string)
    requires |sep| > 0
    ensures SplitOn(s, sep)[0] <= s
  {
    if IndexOf(s, sep) >= 0 {
      SplitOnStep(s, sep);
    }
  }

  /** The first piece of a split is the whole text or ends where the separator starts. */
  lemma SplitHeadEnds(s: string, sep: string)
    requires |sep| > 0
    ensures var h := SplitOn(s, sep)[0];
      h == s || MatchAt(s, sep, |h|)
  {
    if IndexOf(s, sep) >= 0 {
      SplitOnStep(s, sep);
    }
  }

  /** A one-character pattern that is not contained is a character that does not occur. */
  lemma NotContainedChar(s: string, c: char)
    requires !Contains(s, [c])
    ensures c !in s
  {
    if c in s {
      var i :| 0 <= i < |s| && s[i] == c;
      assert s[i..i + 1] == [c];
      ContainsWitness(s, [c], i);
    }
  }

  /**
   * A name parses exactly when it contains '-'; the character id is the
   * text before the first '-', and the type id all the text after it up to
   * the next '-' or the end of the name.
   */
  lemma ParseNameMeaning(fileName: string)
    ensures ParseName(fileName).Ok? <==> '-' in fileName
    ensures ParseName(fileName).Ok? ==>
      var p := ParseName(fileName).value;
      var n := |p.charId| + 1 + |p.typeId|;
      && '-' !in p.charId && '-' !in p.typeId
      && p.charId + "-" + p.typeId <= fileName
      && (n == |fileName| || fileName[n] == '-')
  {
    var s := fileName;
    var i := IndexOf(s, "-");
    if i >= 0 {
      SplitOnStep(s, "-");
      AroundMatch(s, "-", i);
      var rest := s[i + 1..];
      var parts := SplitOn(s, "-");
      assert parts[1..] == SplitOn(rest, "-");
      NotContainedChar(parts[0], '-');
      NotContainedChar(parts[1], '-');
      SplitHeadIsPrefix(rest, "-");
      SplitHeadEnds(rest, "-");
      var h := parts[1];
      if h != rest {
        MatchChar(rest, "-", |h|, 0);
        assert s[i + 1 + |h|] == rest[|h|];
      }
      assert MatchAt(s, "-", i);
      assert s[i] == '-';
    } else {
      forall k | 0 <= k < |s| ensures s[k] != '-' {
        assert !MatchAt(s, "-", k);
        assert s[k..k + 1] == [s[k]];
      }
    }
  }

  /** C#'s `/` on `int`: the quotient truncated toward zero. */
  function TruncDiv(a: int, b: int): int
    requires b > 0
  {
    if a >= 0 then a / b else -((-a) / b)
  }

  /** The minimum frame length: `animHeightLines / 3 * animWidthCharacters`. */
  function MinFrameLength(animHeightLines: int, animWidthCharacters: int): int {
    TruncDiv(animHeightLines, 3) * animWidthCharacters
  }

  /** The content after the first '[' (all of it when there is none), with literal "\n" escapes turned into newlines. */
  function Unwrapped(content: string): string {
    ReplaceAll(content[IndexOf(content, "[") + 1..], "\\n", "\n")
  }

  /**
   * Without a '[' the whole content is unwrapped. Otherwise it is the part
   * after the first '[', and the dropped prefix holds no other '['.
   * Unwrapping never lengthens the content.
   */
  lemma UnwrappedMeaning(content: string)
    ensures '[' !in content ==> Unwrapped(content) == ReplaceAll(content, "\\n", "\n")
    ensures '[' in content ==>
      (exists k :: 0 <= k < |content| && content[k] == '[' && '[' !in content[..k]
        && Unwrapped(content) == ReplaceAll(content[k + 1..], "\\n", "\n"))
    ensures |Unwrapped(content)| <= |content|
  {
    var k := IndexOf(content, "[");
    if k == -1 {
      forall i | 0 <= i < |content|
        ensures content[i] != '['
      {
        assert !MatchAt(content, "[", i);
        assert content[i..i + 1] == [content[i]];
      }
      assert content[0..] == content;
    } else {
      MatchChar(content, "[", k, 0);
      forall j | 0 <= j < k
        ensures content[..k][j] != '['
      {
        assert !MatchAt(content, "[", j);
        assert content[j..j + 1] == [content[j]];
      }
    }
  }

  /** The pieces at least `minLength` long, in order (`Where`). */
  function KeepLong(pieces: seq<string>, minLength: int): (r: seq<string>)
    ensures |r| <= |pieces|
    decreases |pieces|
  {
    if |pieces| == 0 then []
    else
      var init := KeepLong(pieces[..|pieces| - 1], minLength);
      if |pieces[|pieces| - 1]| >= minLength then init + [pieces[|pieces| - 1]] else init
  }

  /** Exactly the long pieces are kept. */
  lemma {:induction false} KeepLongMembers(pieces: seq<string>, minLength: int)
    ensures forall x :: x in KeepLong(pieces, minLength) <==> x in pieces && |x| >= minLength
    decreases |pieces|
  {
    if |pieces| > 0 {
      var init := pieces[..|pieces| - 1];
      KeepLongMembers(init, minLength);
      assert pieces == init + [pieces[|pieces| - 1]];
    }
  }

  /** Kept pieces stay in their relative order: what is kept from a concatenation is what is kept from each part. */
  lemma {:induction false} KeepLongAppend(a: seq<string>, b: seq<string>, minLength: int)
    ensures KeepLong(a + b, minLength) == KeepLong(a, minLength) + KeepLong(b, minLength)
    decreases |b|
  {
    if |b| == 0 {
      assert a + b == a;
    } else {
      var init := b[..|b| - 1];
      assert (a + b)[..|a + b| - 1] == a + init;
      assert (a + b)[|a + b| - 1] == b[|b| - 1];
      KeepLongAppend(a, init, minLength);
    }
  }

  /** The frames of one file: the unwrapped content split on "\",\"", short pieces dropped. */
  function FileFrames(content: string, animHeightLines: int, animWidthCharacters: int): seq<string> {
    KeepLong(SplitOn(Unwrapped(content), "\",\""), MinFrameLength(animHeightLines, animWidthCharacters))
  }

  /** The lists stored under (c, t), or none. */
  function ListsAt(table: FrameTable, c: string, t: string): seq<seq<string>> {
    if c in table && t in table[c] then table[c][t] else []
  }

  /** Filing one more list of frames under (c, t), creating the inner map and the list when absent. */
  function Store(table: FrameTable, c: string, t: string, frames: seq<string>): FrameTable {
    var inner := if c in table then table[c] else map[];
    var lists := if t in inner then inner[t] else [];
    table[c := inner[t := lists + [frames]]]
  }

  /** Storing appends exactly one list under (c, t) and leaves every other pair as it was. */
  lemma StoreFrame(table: FrameTable, c: string, t: string, frames: seq<string>)
    ensures var after := Store(table, c, t, frames);
      && ListsAt(after, c, t) == ListsAt(table, c, t) + [frames]
      && (forall c2, t2 :: (c2 != c || t2 != t) ==> ListsAt(after, c2, t2) == ListsAt(table, c2, t2))
      && after.Keys == table.Keys + {c}
      && after[c].Keys == (if c in table then table[c].Keys else {}) + {t}
  {
  }

  /** How a file name is read. */
  type NameReader = string -> Result<NameParts>

  /** How a file's content becomes its frames. */
  type FrameReader = string -> seq<string>

  /** Adding one file to the table: `Err` when its name does not parse. */
  function AddFile(table: FrameTable, file: AnimationFile, names: NameReader, framesOf: FrameReader): Result<FrameTable> {
    match names(file.name)
    case Err(e) => Err(e)
    case Ok(p) => Ok(Store(table, p.charId, p.typeId, framesOf(file.content)))
  }

  /** The table after loading `files` in order into an empty one; `Err` at the first bad name. */
  function LoadWith(files: seq<AnimationFile>, names: NameReader, framesOf: FrameReader): Result<FrameTable>
    decreases |files|
  {
    if |files| == 0 then Ok(map[])
    else
      match LoadWith(files[..|files| - 1], names, framesOf)
      case Err(e) => Err(e)
      case Ok(t) => AddFile(t, files[|files| - 1], names, framesOf)
  }

  /** The frame lists of the files named (c, t), in file order. */
  function ListsFor(files: seq<AnimationFile>, c: string, t: string, names: NameReader, framesOf: FrameReader): seq<seq<string>>
    decreases |files|
  {
    if |files| == 0 then []
    else
      var init := ListsFor(files[..|files| - 1], c, t, names, framesOf);
      var f := files[|files| - 1];
      if names(f.name) == Ok(NameParts(c, t)) then init + [framesOf(f.content)] else init
  }

  /** The readers of Animations.cs for the given dimensions. */
  function SourceNames(): NameReader {
    name => ParseName(name)
  }

  function SourceFrames(animHeightLines: int, animWidthCharacters: int): FrameReader {
    content => FileFrames(content, animHeightLines, animWidthCharacters)
  }

  /** What the constructor builds from `files`. */
  function Loaded(files: seq<AnimationFile>, animHeightLines: int, animWidthCharacters: int): Result<FrameTable> {
    LoadWith(files, SourceNames(), SourceFrames(animHeightLines, animWidthCharacters))
  }

  /**
   * Loading succeeds exactly when every name parses, and then the lists
   * under (c, t) are the frames of the files named (c, t), one per file,
   * in file order; in particular their number is the number of such files.
   */
  lemma {:induction false} LoadedLists(files: seq<AnimationFile>, names: NameReader, framesOf: FrameReader)
    ensures LoadWith(files, names, framesOf).Ok? <==> forall k :: 0 <= k < |files| ==> names(files[k].name).Ok?
    ensures LoadWith(files, names, framesOf).Ok? ==>
      forall c, t :: ListsAt(LoadWith(files, names, framesOf).value, c, t) == ListsFor(files, c, t, names, framesOf)
    decreases |files|
  {
    if |files| > 0 {
      var init := files[..|files| - 1];
      var f := files[|files| - 1];
      LoadedLists(init, names, framesOf);
      assert forall k :: 0 <= k < |init| ==> init[k] == files[k];
      var prev := LoadWith(init, names, framesOf);
      if prev.Ok? {
        match names(f.name)
        case Err(_) =>
        case Ok(p) =>
          StoreFrame(prev.value, p.charId, p.typeId, framesOf(f.content));
      } else {
        var k :| 0 <= k < |init| && !names(init[k].name).Ok?;
        assert files[k] == init[k];
      }
    }
  }

  /** One more file: the load of the longer prefix adds that file to the table of the shorter. */
  lemma LoadStep(files: seq<AnimationFile>, k: nat, names: NameReader, framesOf: FrameReader)
    requires k < |files|
    ensures LoadWith(files[..k + 1], names, framesOf) ==
      match LoadWith(files[..k], names, framesOf)
      case Err(e) => Err(e)
      case Ok(t) => AddFile(t, files[k], names, framesOf)
  {
    assert files[..k + 1][..k] == files[..k];
  }

  /** A bad name stops the load: once a prefix fails, every longer prefix fails. */
  lemma {:induction false} LoadErrorSticks(files: seq<AnimationFile>, k: nat, names: NameReader, framesOf: FrameReader)
    requires k <= |files| && LoadWith(files[..k], names, framesOf).Err?
    ensures LoadWith(files, names, framesOf).Err?
    decreases |files| - k
  {
    if k < |files| {
      LoadStep(files, k, names, framesOf);
      LoadErrorSticks(files, k + 1, names, framesOf);
    } else {
      assert files[..k] == files;
    }
  }

  /** The three dictionary steps of the constructor file the list as `Store` does. */
  lemma StoreInPlace(table: FrameTable, c: string, t: string, frames: seq<string>)
    ensures var t1 := if c !in table then table[c := map[]] else table;
      var t2 := if t !in t1[c] then t1[c := t1[c][t := []]] else t1;
      t2[c := t2[c][t := t2[c][t] + [frames]]] == Store(table, c, t, frames)
  {
    var inner := if c in table then table[c] else map[];
    var lists := if t in inner then inner[t] else [];
    var t1 := if c !in table then table[c := map[]] else table;
    assert t1[c] == inner;
    var t2 := if t !in t1[c] then t1[c := t1[c][t := []]] else t1;
    assert t2[c] == (if t in inner then inner else inner[t := []]);
    assert t2[c][t] == lists;
    assert t2[c][t := lists + [frames]] == inner[t := lists + [frames]];
  }

  /** `LoadedLists` for the readers of Animations.cs. */
  lemma LoadedFromFiles(files: seq<AnimationFile>, animHeightLines: int, animWidthCharacters: int)
    ensures Loaded(files, animHeightLines, animWidthCharacters).Ok? <==>
      forall k :: 0 <= k < |files| ==> '-' in files[k].name
    ensures Loaded(files, animHeightLines, animWidthCharacters).Ok? ==>
      forall c, t :: |ListsAt(Loaded(files, animHeightLines, animWidthCharacters).value, c, t)|
                  == |ListsFor(files, c, t, SourceNames(), SourceFrames(animHeightLines, animWidthCharacters))|
  {
    LoadedLists(files, SourceNames(), SourceFrames(animHeightLines, animWidthCharacters));
    forall k | 0 <= k < |files| ensures SourceNames()(files[k].name).Ok? <==> '-' in files[k].name {
      ParseNameMeaning(files[k].name);
    }
  }

  /** The frame library: the two dimensions and the frame table. */
  class Animations {
    var frames: FrameTable
    var animHeightLines: int
    var animWidthCharacters: int

    /** The dimensions from the arguments (382 and 275 by default), no frames yet. */
    constructor (animHeightLines: int := 382, animWidthCharacters: int := 275)
      ensures this.animHeightLines == animHeightLines && this.animWidthCharacters == animWidthCharacters
      ensures frames == map[]
    {
      this.animHeightLines := animHeightLines;
      this.animWidthCharacters := animWidthCharacters;
      frames := map[];
    }

    /**
     * The constructor's loop over the files: file them in order; the first
     * name that does not parse stops the loop with its error (the source's
     * constructor then throws).
     */
    method LoadAll(files: seq<AnimationFile>) returns (error: Option<string>)
      requires frames == map[]
      modifies this`frames
      ensures var r := Loaded(files, animHeightLines, animWidthCharacters);
        && (error.None? <==> r.Ok?)
        && (r.Ok? ==> frames == r.value)
    {
      ghost var names := SourceNames();
      ghost var framesOf := SourceFrames(animHeightLines, animWidthCharacters);
      for k := 0 to |files|
        invariant LoadWith(files[..k], names, framesOf) == Ok(frames)
      {
        LoadStep(files, k, names, framesOf);
        var fileName := files[k].name;
        var nameParts := SplitOn(fileName, "-");
        if |nameParts| < 2 {
          assert names(fileName).Err?;
          LoadErrorSticks(files, k + 1, names, framesOf);
          return Some("IndexOutOfRangeException");
        }
        var charId := nameParts[0];
        var typeId := nameParts[1];
        assert names(fileName) == Ok(NameParts(charId, typeId));
        var rawFileContent := files[k].content;
        var fileFrames := FileFrames(rawFileContent, animHeightLines, animWidthCharacters);
        assert framesOf(rawFileContent) == fileFrames;
        StoreInPlace(frames, charId, typeId, fileFrames);
        if charId !in frames {
          frames := frames[charId := map[]];
        }
        if typeId !in frames[charId] {
          frames := frames[charId := frames[charId][typeId := []]];
        }
        frames := frames[charId := frames[charId][typeId := frames[charId][typeId] + [fileFrames]]];
      }
      assert files[..|files|] == files;
      return None;
    }
  }
}
