/** The static-CDN data model: where one logical file lives inside a numbered
    section archive, the two full paths derived from it, and the flag set
    that selects which content groups a download includes. */
module CdnStructures {

  /** A C# `uint`. */
  newtype u32 = x: int | 0 <= x < 0x1_0000_0000

  /** A C# `int`. */
  newtype i32 = x: int | -0x8000_0000 <= x < 0x8000_0000

  /** A directory and a file name joined with one `/`. */
  function JoinPath(dir: string, name: string): (r: string)
    ensures |r| == |dir| + 1 + |name|
    ensures r[..|dir|] == dir
    ensures r[|dir|] == '/'
    ensures r[|dir| + 1..] == name
  {
    dir + "/" + name
  }

  /** For a fixed file name, joining is one-to-one in the directory. */
  lemma JoinPathInjective(a: string, b: string, name: string)
    ensures JoinPath(a, name) == JoinPath(b, name) <==> a == b
  {
    if JoinPath(a, name) == JoinPath(b, name) {
      assert |a| == |b|;
      assert a == JoinPath(a, name)[..|a|] == JoinPath(b, name)[..|b|] == b;
    }
  }

  /** Joining alone does not identify the pair it was built from: a `/`
      inside the file name moves into the directory. */
  lemma JoinPathAmbiguous()
    ensures JoinPath("a/b", "c") == JoinPath("a", "b/c")
  { }

  /** One logical file packed into `section{section}.dat`. `offset` addresses
      the section's content after decompression; `compressedLength` is signed
      so that it can carry a sentinel such as -1. */
  datatype FileInfo = FileInfo(
    path: string,
    originalPath: string,
    file: string,
    hash: string,
    revision: u32,
    section: u32,
    offset: u32,
    length: u32,
    compressedLength: i32)
  {
    function FullPath(): (r: string)
      ensures |r| == |path| + 1 + |file|
      ensures r[..|path|] == path && r[|path|] == '/'
      ensures r[|path| + 1..] == file
    {
      JoinPath(path, file)
    }

    function OriginalFullPath(): (r: string)
      ensures |r| == |originalPath| + 1 + |file|
      ensures r[..|originalPath|] == originalPath && r[|originalPath|] == '/'
      ensures r[|originalPath| + 1..] == file
    {
      JoinPath(originalPath, file)
    }
  }

  /** The two full paths of a record agree exactly when its two directories do. */
  lemma FullPathsAgree(fi: FileInfo)
    ensures fi.FullPath() == fi.OriginalFullPath() <==> fi.path == fi.originalPath
  {
    JoinPathInjective(fi.path, fi.originalPath, fi.file);
  }

  /** Section, offset and length are unsigned 32-bit values; the compressed
      length is a signed 32-bit value and admits -1. */
  lemma FieldWidths(fi: FileInfo)
    ensures 0 <= fi.section as int < 0x1_0000_0000
    ensures 0 <= fi.offset as int < 0x1_0000_0000
    ensures 0 <= fi.length as int < 0x1_0000_0000
    ensures -0x8000_0000 <= fi.compressedLength as int < 0x8000_0000
    ensures fi.(compressedLength := -1).compressedLength < 0
  { }

  /** The content groups a download can select. */
  datatype DownloadData = All | GameBase | Tracks | TracksHigh | Speech

  /** Every flag, in the order of its bit. */
  const Members: seq<DownloadData> := [All, GameBase, Tracks, TracksHigh, Speech]

  /** The bits any combination of flags can have set. */
  const KnownBits: bv32 := 0x1F

  /** The numeric value of a flag: one bit each. */
  function Bit(f: DownloadData): (b: bv32)
    ensures b != 0 && b & (b - 1) == 0
    ensures b & !KnownBits == 0
  {
    match f
    case All => 1
    case GameBase => 2
    case Tracks => 4
    case TracksHigh => 8
    case Speech => 16
  }

  /** Distinct flags share no bit. */
  lemma BitsDisjoint(f: DownloadData, g: DownloadData)
    ensures f != g <==> Bit(f) & Bit(g) == 0
  { }

  /** The index of a flag in `Members`. */
  function Position(f: DownloadData): (i: nat)
    ensures i < |Members| && Members[i] == f
  {
    match f
    case All => 0
    case GameBase => 1
    case Tracks => 2
    case TracksHigh => 3
    case Speech => 4
  }

  /** The bitwise OR of the flags of `flags` found at `Members[i..]`. */
  function CombineFrom(flags: set<DownloadData>, i: nat): (r: bv32)
    requires i <= |Members|
    ensures forall f :: r & Bit(f) != 0 <==> f in flags && i <= Position(f)
    ensures r & !KnownBits == 0
    decreases |Members| - i
  {
    if i == |Members| then 0
    else (if Members[i] in flags then Bit(Members[i]) else 0) | CombineFrom(flags, i + 1)
  }

  /** The value of a set of flags combined with `|`. */
  function Combine(flags: set<DownloadData>): (r: bv32)
    ensures forall f :: r & Bit(f) != 0 <==> f in flags
    ensures r & !KnownBits == 0
  {
    CombineFrom(flags, 0)
  }

  /** The flags whose bit is set in `x`. */
  function Decode(x: bv32): set<DownloadData>
  {
    set f | f in Members && x & Bit(f) != 0
  }

  /** `Enum.HasFlag`: every bit of the flag is set in `x`. */
  predicate HasFlag(x: bv32, f: DownloadData)
  {
    x & Bit(f) == Bit(f)
  }

  /** A flag is in a combination exactly when its bit is set in it. */
  lemma HasFlagCombine(flags: set<DownloadData>, f: DownloadData)
    ensures HasFlag(Combine(flags), f) <==> f in flags
  {
    var b := Bit(f);
    assert Combine(flags) & b == 0 || Combine(flags) & b == b;
  }

  /** Decoding a combination gives back the flags combined. */
  lemma DecodeCombine(flags: set<DownloadData>)
    ensures Decode(Combine(flags)) == flags
  {
    forall f
      ensures f in Decode(Combine(flags)) <==> f in flags
    {
      assert Members[Position(f)] == f;
    }
  }

  /** Two values that agree on the five flag bits and have no other bit set
      are equal. */
  lemma SameKnownBits(x: bv32, y: bv32)
    requires x & !KnownBits == 0 && y & !KnownBits == 0
    requires forall f :: x & Bit(f) != 0 <==> y & Bit(f) != 0
    ensures x == y
  {
    assert x & 1 != 0 <==> y & 1 != 0 by { assert Bit(All) == 1; }
    assert x & 2 != 0 <==> y & 2 != 0 by { assert Bit(GameBase) == 2; }
    assert x & 4 != 0 <==> y & 4 != 0 by { assert Bit(Tracks) == 4; }
    assert x & 8 != 0 <==> y & 8 != 0 by { assert Bit(TracksHigh) == 8; }
    assert x & 16 != 0 <==> y & 16 != 0 by { assert Bit(Speech) == 16; }
  }

  /** Combining the decoded flags of any value gives back its flag bits. */
  lemma CombineDecode(x: bv32)
    ensures Combine(Decode(x)) == x & KnownBits
  {
    var y := Combine(Decode(x));
    forall f
      ensures y & Bit(f) != 0 <==> (x & KnownBits) & Bit(f) != 0
    {
      assert Members[Position(f)] == f;
    }
    SameKnownBits(y, x & KnownBits);
  }
}
