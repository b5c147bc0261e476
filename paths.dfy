/** Filesystem paths as Rust's `std::path` sees them: a sequence of
    components, the root directory first for an absolute path. Equality and
    ordering of paths are component-wise; the OS bytes of a path are its
    names joined by `/`. Only the operations the playlist builder uses are
    modelled: `join`, `file_name`, `extension`, `file_stem`, `strip_prefix`
    and `to_str`. */
module Paths {
  import opened Base
  import opened Compare
  import opened Seqs

  /** A path component; a name is the raw OS bytes between separators. */
  datatype Component = RootDir | Normal(name: seq<byte>)

  type Path = seq<Component>

  const Slash: byte := 0x2F
  const Dot: byte := 0x2E

  /** A canonical path: the root directory can only come first, and every
      name is non-empty, holds no separator and is neither `.` nor `..`. */
  predicate WellFormed(p: Path) {
    forall i | 0 <= i < |p| ::
      match p[i]
      case RootDir => i == 0
      case Normal(n) => n != [] && Slash !in n && n != [Dot] && n != [Dot, Dot]
  }

  predicate AllNormal(p: Path) {
    forall i | 0 <= i < |p| :: p[i].Normal?
  }

  /** `path.join(name)` for a single relative name. */
  function Join(p: Path, name: seq<byte>): (r: Path)
    ensures |r| == |p| + 1 && r[..|p|] == p && r[|p|] == Normal(name)
  {
    p + [Normal(name)]
  }

  /** The names of an all-`Normal` path, joined by `/`. */
  function RenderNames(p: Path): seq<byte>
  {
    if p == [] then []
    else
      var head := if p[0].Normal? then p[0].name else [];
      if |p| == 1 then head else head + [Slash] + RenderNames(p[1..])
  }

  /** The OS bytes of a path, as `Path::as_os_str` gives them. */
  function Render(p: Path): seq<byte>
  {
    if p != [] && p[0] == RootDir then [Slash] + RenderNames(p[1..]) else RenderNames(p)
  }

  /** `Path::to_str`: the path as text when its bytes are UTF-8. */
  function ToStr(p: Path): (r: Option<seq<byte>>)
    ensures r.Some? <==> Utf8(Render(p))
    ensures r.Some? ==> r.value == Render(p)
  {
    var bytes := Render(p);
    if Utf8(bytes) then Some(bytes) else None
  }

  /** `Path::file_name`: the last component when it is a name. */
  function FileName(p: Path): (r: Option<seq<byte>>)
    ensures r.Some? <==> p != [] && p[|p| - 1].Normal?
    ensures r.Some? ==> r.value == p[|p| - 1].name
  {
    if p != [] && p[|p| - 1].Normal? then Some(p[|p| - 1].name) else None
  }

  /** Position of the last occurrence of `b` in `s`. */
  function LastIndexOf(s: seq<byte>, b: byte): (r: Option<nat>)
    ensures r.Some? ==> r.value < |s| && s[r.value] == b
    ensures r.Some? ==> forall k | r.value < k < |s| :: s[k] != b
    ensures r.None? <==> b !in s
  {
    if s == [] then None
    else if s[|s| - 1] == b then Some(|s| - 1)
    else LastIndexOf(s[..|s| - 1], b)
  }

  /** How Rust splits a file name at its last dot: `(before, after)`. A name
      with no dot is all `after`; a name whose only dot leads it, and the
      name `..`, are all `before`. */
  function SplitAtDot(name: seq<byte>): (Option<seq<byte>>, Option<seq<byte>>)
  {
    if name == [Dot, Dot] then (Some(name), None)
    else
      match LastIndexOf(name, Dot)
      case None => (None, Some(name))
      case Some(i) => if i == 0 then (Some(name), None) else (Some(name[..i]), Some(name[i + 1..]))
  }

  /** A name made of a non-empty stem, a dot and a dot-free token splits
      into exactly that stem and that token. */
  lemma SplitStemDotToken(stem: seq<byte>, token: seq<byte>)
    requires stem != [] && Dot !in token && stem + [Dot] + token != [Dot, Dot]
    ensures SplitAtDot(stem + [Dot] + token) == (Some(stem), Some(token))
  {
    var name := stem + [Dot] + token;
    assert name[|stem|] == Dot;
    assert forall k | |stem| < k < |name| :: name[k] == token[k - |stem| - 1];
    assert LastIndexOf(name, Dot) == Some(|stem|);
    assert name[..|stem|] == stem && name[|stem| + 1..] == token;
  }

  /** `Path::extension`: the text after the last dot of the file name. */
  function Extension(p: Path): Option<seq<byte>>
  {
    match FileName(p)
    case None => None
    case Some(name) =>
      var (before, after) := SplitAtDot(name);
      if before.Some? && after.Some? then after else None
  }

  /** `Path::file_stem`: the file name without its extension. */
  function FileStem(p: Path): Option<seq<byte>>
  {
    match FileName(p)
    case None => None
    case Some(name) =>
      var (before, after) := SplitAtDot(name);
      if before.Some? then before else after
  }

  /** `name` has a dot somewhere after its first byte. */
  predicate HasInnerDot(name: seq<byte>) {
    exists k | 0 < k < |name| :: name[k] == Dot
  }

  /** The extension exists exactly when the file name has a dot somewhere
      after its first byte (and is not `..`); it is then what follows the
      last dot, and stem, dot and extension make up the whole name. */
  lemma StemAndExtension(p: Path)
    ensures Extension(p).Some? <==>
      FileName(p).Some? && FileName(p).value != [Dot, Dot] && HasInnerDot(FileName(p).value)
    ensures Extension(p).Some? ==>
      && Dot !in Extension(p).value
      && FileStem(p).Some?
      && FileName(p).value == FileStem(p).value + [Dot] + Extension(p).value
    ensures Extension(p).None? ==> FileStem(p) == FileName(p)
  {
    if FileName(p).Some? {
      var name := FileName(p).value;
      if name != [Dot, Dot] {
        var i := LastIndexOf(name, Dot);
        if i.Some? && i.value > 0 {
          var j := i.value;
          assert name == name[..j] + [Dot] + name[j + 1..];
          assert Dot !in name[j + 1..] by {
            forall k | j + 1 <= k < |name| ensures name[k] != Dot {
            }
          }
        }
      }
    }
  }

  predicate IsPrefix(base: Path, p: Path) {
    |base| <= |p| && p[..|base|] == base
  }

  /** `Path::strip_prefix`: the components after `base` when `base` is a
      component-wise prefix of `p`. */
  function StripPrefix(p: Path, base: Path): (r: Option<Path>)
    ensures r.Some? <==> IsPrefix(base, p)
    ensures r.Some? ==> base + r.value == p
  {
    if IsPrefix(base, p) then
      assert base + p[|base|..] == p by { assert p == p[..|base|] + p[|base|..]; }
      Some(p[|base|..])
    else None
  }

  /** Rust's `Component` ordering: the root directory sorts before every
      name, and names compare by their bytes. */
  function CmpComponent(x: Component, y: Component): Ordering {
    match (x, y)
    case (RootDir, RootDir) => Equal
    case (RootDir, Normal(_)) => Less
    case (Normal(_), RootDir) => Greater
    case (Normal(a), Normal(b)) => CmpBytes(a, b)
  }

  lemma ComponentIsComparator()
    ensures IsComparator(CmpComponent)
  {
    BytesIsComparator();
  }

  /** `Path::cmp`: lexicographic over the components. */
  function CmpPath(a: Path, b: Path): Ordering {
    Lexicographic(a, b, CmpComponent)
  }

  lemma PathIsComparator()
    ensures IsComparator(CmpPath)
  {
    ComponentIsComparator();
    LexicographicIsComparator(CmpComponent);
  }

  /** The bytes of `base` joined with a non-empty relative path are the
      bytes of `base` (nothing for the root alone), a separator, and the
      relative path's own bytes. */
  lemma RenderJoined(base: Path, rel: Path)
    requires base != [] && rel != [] && AllNormal(rel)
    ensures Render(base + rel) == (if base == [RootDir] then [] else Render(base)) + [Slash] + Render(rel)
  {
    var whole := base + rel;
    assert Render(rel) == RenderNames(rel);
    if base == [RootDir] {
      assert whole[1..] == rel;
      assert Render(whole) == [Slash] + RenderNames(rel);
    } else if base[0] == RootDir {
      assert whole[0] == RootDir;
      assert whole[1..] == base[1..] + rel;
      RenderNamesAppend(base[1..], rel);
      assert Render(whole) == [Slash] + (RenderNames(base[1..]) + [Slash] + RenderNames(rel));
      AppendAssociative([Slash], RenderNames(base[1..]), [Slash]);
      AppendAssociative([Slash], RenderNames(base[1..]) + [Slash], RenderNames(rel));
    } else {
      assert whole[0] == base[0];
      RenderNamesAppend(base, rel);
      assert Render(whole) == RenderNames(base) + [Slash] + RenderNames(rel);
    }
  }

  lemma {:induction false} RenderNamesAppend(p: Path, q: Path)
    requires p != [] && q != []
    ensures RenderNames(p + q) == RenderNames(p) + [Slash] + RenderNames(q)
  {
    var head := if p[0].Normal? then p[0].name else [];
    assert (p + q)[0] == p[0];
    if |p| == 1 {
      assert (p + q)[1..] == q;
    } else {
      assert (p + q)[1..] == p[1..] + q;
      var rest := RenderNames(p[1..]);
      var tail := RenderNames(q);
      calc {
        RenderNames(p + q);
        head + [Slash] + RenderNames(p[1..] + q);
        { RenderNamesAppend(p[1..], q); }
        head + [Slash] + (rest + [Slash] + tail);
        { AppendAssociative(head + [Slash], rest + [Slash], tail); }
        head + [Slash] + (rest + [Slash]) + tail;
        { AppendAssociative(head + [Slash], rest, [Slash]); }
        RenderNames(p) + [Slash] + tail;
      }
    }
  }

  /** A joined name reads back: it is the file name of the result, and
      stripping the directory leaves exactly that name. */
  lemma JoinedName(p: Path, name: seq<byte>)
    ensures FileName(Join(p, name)) == Some(name)
    ensures StripPrefix(Join(p, name), p) == Some([Normal(name)])
  {
    var r := Join(p, name);
    assert r[..|p|] == p && r[|p|..] == [Normal(name)];
  }

  /** The names of a path whose names are ASCII render as ASCII bytes. */
  lemma {:induction false} RenderNamesAscii(p: Path)
    requires forall i | 0 <= i < |p| :: p[i].Normal? ==> IsAscii(p[i].name)
    ensures IsAscii(RenderNames(p))
    decreases |p|
  {
    if |p| > 1 {
      RenderNamesAscii(p[1..]);
      var head := if p[0].Normal? then p[0].name else [];
      var whole := head + [Slash] + RenderNames(p[1..]);
      assert forall k | 0 <= k < |whole| :: whole[k] < 0x80 by {
        forall k | 0 <= k < |whole| ensures whole[k] < 0x80 {
          if k < |head| {
            assert whole[k] == head[k];
          } else if k > |head| {
            assert whole[k] == RenderNames(p[1..])[k - |head| - 1];
          }
        }
      }
    }
  }

  /** A path whose names are all ASCII is text. */
  lemma AsciiPathIsText(p: Path)
    requires forall i | 0 <= i < |p| :: p[i].Normal? ==> IsAscii(p[i].name)
    ensures ToStr(p).Some? && ToStr(p).value == Render(p)
  {
    if p != [] && p[0] == RootDir {
      RenderNamesAscii(p[1..]);
      var bytes := [Slash] + RenderNames(p[1..]);
      assert forall k | 1 <= k < |bytes| :: bytes[k] == RenderNames(p[1..])[k - 1];
      AsciiIsUtf8(bytes);
    } else {
      RenderNamesAscii(p);
      AsciiIsUtf8(RenderNames(p));
    }
  }

  /** When an absolute path converts to text, so does every relative path
      that `strip_prefix` cuts out of it. */
  lemma StrippedToStr(p: Path, base: Path)
    requires base != [] && IsPrefix(base, p) && p != base && AllNormal(p[|base|..])
    requires ToStr(p).Some?
    ensures ToStr(StripPrefix(p, base).value).Some?
  {
    var rel := p[|base|..];
    assert base + rel == p;
    RenderJoined(base, rel);
    Utf8AfterAscii(if base == [RootDir] then [] else Render(base), Slash, Render(rel));
  }
}
