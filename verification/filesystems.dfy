/** `Fs` and the row filter of `get_filesystems`: mounted ext2/3/4 filesystems as `df` lists them. */
module Filesystems {

  import opened Wrappers
  import opened Errors
  import opened Text

  datatype Fs = Fs(deviceName: string, mountPoint: string, sizeInBytes: int, freeSpaceInBytes: int)

  /** What the constructor guarantees of every `Fs` it builds. */
  predicate ValidFs(f: Fs) {
    StartsWith(f.deviceName, "/dev/") && StartsWith(f.mountPoint, "/") && f.sizeInBytes != 0
  }

  /** The message of the ArgumentError that `Integer()` raises. */
  function IntegerError(s: string): Error {
    ArgumentError("invalid value for Integer(): \"" + s + "\"")
  }

  /** `Fs.new`: the checks run in order and the first that fails raises. */
  function NewFs(deviceName: string, mountPoint: string, size: string, free: string): (r: Result<Fs, Error>)
    ensures r.Success? <==>
              && StartsWith(deviceName, "/dev/") && StartsWith(mountPoint, "/")
              && ParseInteger(size).Some? && ParseInteger(size).value != 0
              && ParseInteger(free).Some?
    ensures r.Success? ==> ValidFs(r.value)
                           && r.value.deviceName == deviceName && r.value.mountPoint == mountPoint
                           && Some(r.value.sizeInBytes) == ParseInteger(size)
                           && Some(r.value.freeSpaceInBytes) == ParseInteger(free)
    ensures !StartsWith(deviceName, "/dev/") ==> r == Failure(ArgumentError(deviceName))
    ensures StartsWith(deviceName, "/dev/") && !StartsWith(mountPoint, "/") ==> r == Failure(ArgumentError(mountPoint))
    ensures (StartsWith(deviceName, "/dev/") && StartsWith(mountPoint, "/") && ParseInteger(size).None?)
              ==> r == Failure(IntegerError(size))
    ensures (StartsWith(deviceName, "/dev/") && StartsWith(mountPoint, "/") && ParseInteger(size) == Some(0))
              ==> r == Failure(ArgumentError(size))
    ensures (&& StartsWith(deviceName, "/dev/") && StartsWith(mountPoint, "/")
             && ParseInteger(size).Some? && ParseInteger(size).value != 0 && ParseInteger(free).None?)
              ==> r == Failure(IntegerError(free))
    ensures r.Failure? ==> r.error.ArgumentError?
  {
    if !StartsWith(deviceName, "/dev/") then Failure(ArgumentError(deviceName))
    else if !StartsWith(mountPoint, "/") then Failure(ArgumentError(mountPoint))
    else match ParseInteger(size)
      case None => Failure(IntegerError(size))
      case Some(s) =>
        if s == 0 then Failure(ArgumentError(size))
        else match ParseInteger(free)
          case None => Failure(IntegerError(free))
          case Some(f) => Success(Fs(deviceName, mountPoint, s, f))
  }

  /** `Fs#<=>`: lexicographic over device name, mount point, size and free space. */
  function Compare(a: Fs, b: Fs): (r: int)
    ensures -1 <= r <= 1
  {
    var r := CompareStrings(a.deviceName, b.deviceName);
    if r != 0 then r
    else
      var r := CompareStrings(a.mountPoint, b.mountPoint);
      if r != 0 then r
      else
        var r := CompareInts(a.sizeInBytes, b.sizeInBytes);
        if r != 0 then r
        else CompareInts(a.freeSpaceInBytes, b.freeSpaceInBytes)
  }

  /** Lines 367-373: the first field that differs decides, in the order device name, mount
      point, size, free space. */
  lemma CompareFieldOrder(a: Fs, b: Fs)
    ensures a.deviceName != b.deviceName ==> Compare(a, b) == CompareStrings(a.deviceName, b.deviceName)
    ensures (a.deviceName == b.deviceName && a.mountPoint != b.mountPoint)
              ==> Compare(a, b) == CompareStrings(a.mountPoint, b.mountPoint)
    ensures (a.deviceName == b.deviceName && a.mountPoint == b.mountPoint && a.sizeInBytes != b.sizeInBytes)
              ==> Compare(a, b) == CompareInts(a.sizeInBytes, b.sizeInBytes)
    ensures (a.deviceName == b.deviceName && a.mountPoint == b.mountPoint && a.sizeInBytes == b.sizeInBytes)
              ==> Compare(a, b) == CompareInts(a.freeSpaceInBytes, b.freeSpaceInBytes)
  {
    CompareStringsZero(a.deviceName, b.deviceName);
    CompareStringsZero(a.mountPoint, b.mountPoint);
  }

  /** `<=>` answers 0 exactly for equal filesystems. */
  lemma CompareZeroIff(a: Fs, b: Fs)
    ensures Compare(a, b) == 0 <==> a == b
  {
    CompareStringsZero(a.deviceName, b.deviceName);
    CompareStringsZero(a.mountPoint, b.mountPoint);
  }

  /** Swapping the operands flips the sign of `<=>`. */
  lemma CompareFlip(a: Fs, b: Fs)
    ensures Compare(b, a) == -Compare(a, b)
  {
    CompareStringsFlip(a.deviceName, b.deviceName);
    CompareStringsFlip(a.mountPoint, b.mountPoint);
  }

  /** `<=>` orders filesystems transitively. */
  lemma CompareTransitive(a: Fs, b: Fs, c: Fs)
    requires Compare(a, b) < 0 && Compare(b, c) < 0
    ensures Compare(a, c) < 0
  {
    CompareStringsZero(a.deviceName, b.deviceName);
    CompareStringsZero(b.deviceName, c.deviceName);
    CompareStringsZero(a.mountPoint, b.mountPoint);
    CompareStringsZero(b.mountPoint, c.mountPoint);
    if CompareStrings(a.deviceName, b.deviceName) < 0 && CompareStrings(b.deviceName, c.deviceName) < 0 {
      CompareStringsTransitive(a.deviceName, b.deviceName, c.deviceName);
    }
    if CompareStrings(a.mountPoint, b.mountPoint) < 0 && CompareStrings(b.mountPoint, c.mountPoint) < 0 {
      CompareStringsTransitive(a.mountPoint, b.mountPoint, c.mountPoint);
    }
  }

  /** The regular expression `/ext[234]/`. */
  predicate MentionsExt(line: string) {
    Contains(line, "ext2") || Contains(line, "ext3") || Contains(line, "ext4")
  }

  /** Lines 109-115: an ext2/3/4 row of exactly five words (type, device, mount point, size,
      free space) becomes an `Fs`; a row `Fs.new` rejects is skipped. */
  function DfRow(line: string): (r: Option<Fs>)
    ensures r.Some? ==> ValidFs(r.value)
    ensures var a := Words(line);
      r.Some? <==> MentionsExt(line) && |a| == 5 && NewFs(a[1], a[2], a[3], a[4]).Success?
    ensures var a := Words(line);
      r.Some? ==> r.value == NewFs(a[1], a[2], a[3], a[4]).value
  {
    var a := Words(line);
    if !MentionsExt(line) || |a| != 5 then None
    else match NewFs(a[1], a[2], a[3], a[4])
      case Failure(_) => None
      case Success(f) => Some(f)
  }

  /** A row of `df` for an ext4 filesystem, as the awk filter prints it (type, device, mount
      point, size, free space), yields that filesystem. */
  lemma DfRowRoundTrip(device: string, mount: string, size: nat, free: nat)
    requires IsWord(device) && IsWord(mount) && StartsWith(device, "/dev/") && StartsWith(mount, "/")
    requires size > 0
    ensures DfRow(Unwords(["ext4", device, mount, DecimalString(size), DecimalString(free)]))
              == Some(Fs(device, mount, size, free))
  {
    var fields := ["ext4", device, mount, DecimalString(size), DecimalString(free)];
    var line := Unwords(fields);
    assert IsWord("ext4");
    DecimalIsWord(size);
    DecimalIsWord(free);
    WordsUnwords(fields);
    assert line[0..4] == "ext4";
    assert OccursAt(line, "ext4", 0);
    DecimalParses(size);
    DecimalParses(free);
  }

  /** The rows of the `df` output that yield a filesystem, in order. */
  function FsRows(lines: seq<string>): (fs: seq<Fs>)
    ensures |fs| <= |lines|
    ensures forall f :: f in fs ==> ValidFs(f) && exists i :: 0 <= i < |lines| && DfRow(lines[i]) == Some(f)
    ensures forall i :: 0 <= i < |lines| && DfRow(lines[i]).Some? ==> DfRow(lines[i]).value in fs
  {
    if |lines| == 0 then []
    else
      var init := lines[..|lines| - 1];
      var fs := FsRows(init);
      assert forall i :: 0 <= i < |init| ==> init[i] == lines[i];
      match DfRow(lines[|lines| - 1])
      case None => fs
      case Some(f) => fs + [f]
  }

  /** One step of `FsRows`: the last row's filesystem, if any, follows those of the others. */
  lemma FsRowsStep(lines: seq<string>)
    requires |lines| > 0
    ensures FsRows(lines) == FsRows(lines[..|lines| - 1])
                             + (if DfRow(lines[|lines| - 1]).Some? then [DfRow(lines[|lines| - 1]).value] else [])
  {
  }

  /** Reading concatenated `df` output reads each part in turn. */
  lemma {:induction false} FsRowsAppend(a: seq<string>, b: seq<string>)
    ensures FsRows(a + b) == FsRows(a) + FsRows(b)
  {
    if |b| == 0 {
      assert a + b == a;
    } else {
      var init := b[..|b| - 1];
      var ab := a + b;
      assert ab[..|ab| - 1] == a + init;
      assert ab[|ab| - 1] == b[|b| - 1];
      FsRowsStep(ab);
      FsRowsStep(b);
      FsRowsAppend(a, init);
    }
  }

  /** One row gives its filesystem once, or nothing when it is skipped. */
  lemma FsRowsSingle(line: string)
    ensures FsRows([line]) == if DfRow(line).Some? then [DfRow(line).value] else []
  {
    assert [line][..0] == [];
  }

  /** `get_filesystems`: `None` is a `df` that could not be run, reported as Unavailable. */
  function GetFilesystems(df: Option<seq<string>>): (r: Result<seq<Fs>, Error>)
    ensures r.Failure? <==> df.None?
    ensures r.Success? ==> forall f :: f in r.value ==> ValidFs(f)
    ensures r.Success? ==> forall line :: line in df.value && DfRow(line).Some? ==> DfRow(line).value in r.value
    ensures r.Success? ==> forall f :: f in r.value ==> exists line :: line in df.value && DfRow(line) == Some(f)
    ensures r.Success? ==> r.value == FsRows(df.value)
  {
    if df.None? then Failure(Unavailable("df could not be run"))
    else Success(FsRows(df.value))
  }
}
