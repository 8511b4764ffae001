/** `pad_len` and `load_file` in util.py: the input file is read as a flat
    binary or as an ELF file, chosen by its suffix, and the image is padded
    with zero bytes up to a multiple of the device's write size. */
module ImageFile {
  import opened Bytes
  import opened Errors
  import opened DeviceInfo
  import opened ElfImage

  /** `pad_len`: how many bytes take `length` up to the next multiple of
      `align` (0 when it already is one). */
  function PadLen(length: nat, align: nat): (r: nat)
    requires align > 0
    ensures r < align
    ensures Aligned(length + r, align)
    ensures r == 0 <==> Aligned(length, align)
  {
    var k, m := length / align, length % align;
    if m == 0 then
      DivModUnique(length + align - 1, align, k, align - 1);
      ((length + align - 1) / align) * align - length
    else
      DivModUnique(length + align - 1, align, k + 1, m - 1);
      assert (k + 1) * align == k * align + align;
      DivModUnique(length + align - m, align, k + 1, 0);
      ((length + align - 1) / align) * align - length
  }

  predicate Aligned(x: int, align: nat)
    requires align > 0
  {
    x % align == 0
  }

  /** The padding is the least one: no shorter padding reaches a multiple
      of `align`. */
  lemma PadLenLeast(length: nat, align: nat)
    requires align > 0
    ensures forall q :: length <= q < length + PadLen(length, align) ==> !Aligned(q, align)
  {
    var k, m := length / align, length % align;
    assert length == k * align + m;
    if m != 0 {
      var r := PadLen(length, align);
      DivModUnique(length + r, align, (length + r) / align, 0);
      PadLenValue(length, align, k, m, r);
      forall q | length <= q < length + r ensures !Aligned(q, align) {
        DivModUnique(q, align, k, m + (q - length));
      }
    }
  }

  lemma PadLenValue(length: nat, align: nat, k: int, m: int, r: nat)
    requires align > 0 && 0 < m < align && length == k * align + m
    requires r < align && (length + r) % align == 0
    ensures r == align - m
  {
    if r < align - m {
      DivModUnique(length + r, align, k, m + r);
    } else if r > align - m {
      assert length + r == (k + 1) * align + (r - (align - m));
      DivModUnique(length + r, align, k + 1, r - (align - m));
    }
  }

  lemma ExamplePadLen()
    ensures PadLen(10, 4) == 2 && PadLen(8, 4) == 0
  {
  }

  // ---------------------------------------------------------------------
  // Choosing the loader by the file's suffix (`Path(file).suffix.lower()`)

  /** The final component of a path, after its last '/'. */
  function AfterLastSlash(s: string): string
    decreases |s|
  {
    if s == [] || s[|s| - 1] == '/' then [] else AfterLastSlash(s[..|s| - 1]) + [s[|s| - 1]]
  }

  /** `Path(path).name`: the final component, trailing slashes ignored. */
  function Name(path: string): string
    decreases |path|
  {
    if path != [] && path[|path| - 1] == '/' then Name(path[..|path| - 1]) else AfterLastSlash(path)
  }

  /** `name.rfind('.')`. */
  function LastDot(name: string): (i: int)
    ensures -1 <= i < |name|
    ensures i >= 0 ==> name[i] == '.'
    ensures forall j :: i < j < |name| ==> name[j] != '.'
    decreases |name|
  {
    if name == [] then -1
    else if name[|name| - 1] == '.' then |name| - 1
    else LastDot(name[..|name| - 1])
  }

  /** `PurePath.suffix`: from the last dot on, unless that dot starts the
      name or ends it. */
  function Suffix(name: string): string
  {
    var i := LastDot(name);
    if 0 < i < |name| - 1 then name[i..] else ""
  }

  function LowerChar(c: char): char
  {
    if 'A' <= c <= 'Z' then (c as int + 32) as char else c
  }

  /** `str.lower` on ASCII letters. */
  function Lower(s: string): (r: string)
    ensures |r| == |s|
    ensures forall i :: 0 <= i < |s| ==> r[i] == LowerChar(s[i])
  {
    seq(|s|, i requires 0 <= i < |s| => LowerChar(s[i]))
  }

  datatype FileKind = ElfKind | BinKind | OtherKind

  function KindOf(path: string): FileKind
  {
    var suffix := Lower(Suffix(Name(path)));
    if suffix == ".elf" then ElfKind else if suffix == ".bin" then BinKind else OtherKind
  }

  lemma {:induction false} AfterLastSlashAppend(s: string, t: string)
    requires forall j :: 0 <= j < |t| ==> t[j] != '/'
    ensures AfterLastSlash(s + t) == AfterLastSlash(s) + t
    decreases |t|
  {
    if t != [] {
      var u := s + t;
      assert u[..|u| - 1] == s + t[..|t| - 1];
      AfterLastSlashAppend(s, t[..|t| - 1]);
      assert t == t[..|t| - 1] + [t[|t| - 1]];
    } else {
      assert s + t == s;
    }
  }

  /** Appending an extension such as ".elf" to a path whose final component
      is not empty makes that extension the path's suffix. */
  lemma SuffixOfAppended(path: string, ext: string)
    requires path != [] && path[|path| - 1] != '/'
    requires |ext| >= 2 && ext[0] == '.'
    requires forall j :: 1 <= j < |ext| ==> ext[j] != '.' && ext[j] != '/'
    ensures Suffix(Name(path + ext)) == ext
  {
    AfterLastSlashAppend(path, ext);
    var stem := AfterLastSlash(path);
    assert path == path[..|path| - 1] + [path[|path| - 1]];
    assert |stem| >= 1;
    var name := stem + ext;
    LastDotAppend(stem, ext);
    assert name[|stem|..] == ext;
  }

  /** An extension on its own names a hidden file, which has no suffix. */
  lemma HiddenHasNoSuffix(ext: string)
    requires |ext| >= 2 && ext[0] == '.'
    requires forall j :: 1 <= j < |ext| ==> ext[j] != '.' && ext[j] != '/'
    ensures Suffix(Name(ext)) == ""
  {
    var empty: string := [];
    assert ext[|ext| - 1] != '/';
    AfterLastSlashAppend(empty, ext);
    assert empty + ext == ext;
    LastDotAppend(empty, ext);
  }

  lemma LastDotAppend(stem: string, ext: string)
    requires |ext| >= 1 && ext[0] == '.'
    requires forall j :: 1 <= j < |ext| ==> ext[j] != '.'
    ensures LastDot(stem + ext) == |stem|
  {
    var name := stem + ext;
    assert name[|stem|] == '.';
    forall j | |stem| < j < |name| ensures name[j] != '.' {
      assert name[j] == ext[j - |stem|];
    }
  }

  /** The loader is chosen by the extension regardless of its case: "x.elf"
      and "x.ELF" are ELF files, "x.bin" and "x.Bin" flat binaries. */
  lemma KindOfExtension(path: string, ext: string)
    requires path != [] && path[|path| - 1] != '/'
    requires |ext| >= 2 && ext[0] == '.'
    requires forall j :: 1 <= j < |ext| ==> ext[j] != '.' && ext[j] != '/'
    ensures Lower(ext) == ".elf" ==> KindOf(path + ext) == ElfKind
    ensures Lower(ext) == ".bin" ==> KindOf(path + ext) == BinKind
    ensures Lower(ext) != ".elf" && Lower(ext) != ".bin" ==> KindOf(path + ext) == OtherKind
    ensures KindOf(ext) == OtherKind
  {
    SuffixOfAppended(path, ext);
    HiddenHasNoSuffix(ext);
    assert Lower("") == "";
  }

  // ---------------------------------------------------------------------
  // load_file

  /** The input file: its path, the bytes `f.read()` returns, and the
      program headers and sections the ELF library reports for it. */
  datatype InputFile = InputFile(path: string, contents: seq<byte>, headers: seq<ProgramHeader>, sections: seq<Section>)

  /** The image before padding, by the file's kind. */
  function Unpadded(file: InputFile, info: BlInfo, addr: Option<int>): Result<Image>
  {
    match KindOf(file.path)
    case ElfKind => LoadedElf(file.headers, file.sections, info)
    case BinKind => if addr.None? then Err(MissingBaseAddress) else Ok(Image(addr.value, file.contents))
    case OtherKind => Err(UnsupportedFileType(Suffix(Name(file.path))))
  }

  /** What `load_file` returns: the loaded data followed by exactly
      `pad_len(len, write_size)` zero bytes, so the loaded data is a prefix
      and the length a multiple of the write size; a .bin image is placed
      at the caller's address, an ELF image where its chunks say, whatever
      address the caller gave. */
  function FileImage(file: InputFile, info: BlInfo, addr: Option<int>): (r: Result<Image>)
    ensures Unpadded(file, info, addr).Err? ==> r == Unpadded(file, info, addr)
    ensures Unpadded(file, info, addr).Ok? && info.writeSize == 0 ==> r == Err(ZeroDivision)
    ensures r.Ok? ==>
      var loaded := Unpadded(file, info, addr).value;
      && info.writeSize > 0
      && r.value.addr == loaded.addr
      && r.value.data == loaded.data + Zeros(PadLen(|loaded.data|, info.writeSize))
      && Aligned(|r.value.data|, info.writeSize)
      && |loaded.data| <= |r.value.data| < |loaded.data| + info.writeSize
      && r.value.data[..|loaded.data|] == loaded.data
    ensures KindOf(file.path) == BinKind && addr.Some? && info.writeSize > 0 ==>
      r.Ok? && r.value.addr == addr.value
    ensures KindOf(file.path) == BinKind && addr.None? ==> r == Err(MissingBaseAddress)
    ensures KindOf(file.path) == OtherKind ==> r == Err(UnsupportedFileType(Suffix(Name(file.path))))
  {
    var loaded := Unpadded(file, info, addr);
    if loaded.Err? then loaded
    else if info.writeSize == 0 then Err(ZeroDivision)
    else
      var data := loaded.value.data;
      Ok(Image(loaded.value.addr, data + Zeros(PadLen(|data|, info.writeSize))))
  }

  /** `load_file`, with the file's contents handed in. */
  method LoadFile(file: InputFile, info: BlInfo, addr: Option<int>) returns (r: Result<Image>)
    ensures r == FileImage(file, info, addr)
  {
    var img: Image;
    var kind := KindOf(file.path);
    if kind == ElfKind {
      var elf := LoadElf(file.headers, file.sections, info);
      if elf.Err? {
        return elf;
      }
      img := elf.value;
    } else if kind == BinKind {
      if addr.None? {
        return Err(MissingBaseAddress);
      }
      img := Image(addr.value, file.contents);
    } else {
      return Err(UnsupportedFileType(Suffix(Name(file.path))));
    }
    if info.writeSize == 0 {
      return Err(ZeroDivision);
    }
    var data := img.data;
    var padLength := PadLen(|data|, info.writeSize);
    if padLength != 0 {
      data := data + Zeros(padLength);
    } else {
      assert data == data + Zeros(0);
    }
    return Ok(Image(img.addr, data));
  }

  /** For an ELF file the caller's address is ignored: the image starts at
      the lowest collected chunk address, and loading fails exactly when no
      chunk was collected or the write size is zero. */
  lemma ElfFileImage(file: InputFile, info: BlInfo, addr: Option<int>)
    requires KindOf(file.path) == ElfKind
    ensures FileImage(file, info, addr) == FileImage(file, info, None)
    ensures var cs := Collected(file.headers, file.sections, info);
      var r := FileImage(file, info, addr);
      && (r.Ok? <==> cs != [] && info.writeSize > 0)
      && (r.Ok? ==> (exists c :: c in cs && c.paddr == r.value.addr) && forall c :: c in cs ==> r.value.addr <= c.paddr)
  {
    LoadedElfAt(file.headers, file.sections, info);
  }
}
