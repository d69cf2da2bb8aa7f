/** The on-disk cache of puzzle inputs (`AocInput`): one file per puzzle,
    named from the day and the year, under `./aoc_inputs/`. The file system
    is a map from path to text. */
module Cache {
  import opened Wrappers
  import opened Errors
  import opened Text

  const InputFolder := "aoc_inputs"
  const Extension := ".input"

  /** The cache file of the puzzle of `day` in `year`. */
  function CachePath(day: Byte, year: Int32): string
  {
    "./" + InputFolder + "/" + Decimal(day) + "_" + SignedDecimal(year) + Extension
  }

  lemma CachePathParts(day: Byte, year: Int32)
    ensures CachePath(day, year) == "./" + InputFolder + "/" + (Decimal(day) + "_" + (SignedDecimal(year) + Extension))
  {
  }

  /** Two puzzles never share a cache file: the day is written in digits,
      so the first `_` after the folder ends it, and the rest up to the
      extension is the year. */
  lemma CachePathInjective(d1: Byte, y1: Int32, d2: Byte, y2: Int32)
    ensures CachePath(d1, y1) == CachePath(d2, y2) <==> d1 == d2 && y1 == y2
  {
    if CachePath(d1, y1) == CachePath(d2, y2) {
      var folder := "./" + InputFolder + "/";
      var day1, day2 := Decimal(d1), Decimal(d2);
      var year1, year2 := SignedDecimal(y1), SignedDecimal(y2);
      CachePathParts(d1, y1);
      CachePathParts(d2, y2);
      PrefixCancel(folder, day1 + "_" + (year1 + Extension), day2 + "_" + (year2 + Extension));
      assert '_' !in day1 && '_' !in day2 by {
        assert !IsDigit('_');
      }
      SplitAtFirstChar(day1, year1 + Extension, day2, year2 + Extension, '_');
      SuffixCancel(year1, year2, Extension);
      DecimalInjective(d1, d2);
      SignedDecimalInjective(y1, y2);
    }
  }

  /** The digits of the day and the year of the first puzzle of 2023. */
  lemma DecimalExample()
    ensures Decimal(1) == "1" && SignedDecimal(2023) == "2023"
  {
    assert Decimal(20) == "20";
    assert Decimal(202) == Decimal(20) + "2";
    assert Decimal(2023) == Decimal(202) + "3";
  }

  /** The cache file of the first puzzle of 2023. */
  lemma CachePathExample()
    ensures CachePath(1, 2023) == "./aoc_inputs/1_2023.input"
  {
    DecimalExample();
    CachePathParts(1, 2023);
    assert "2023.input" == "2023" + Extension;
    assert "1_2023.input" == "1" + "_" + "2023.input";
    assert "./aoc_inputs/1_2023.input" == "./aoc_inputs/" + "1_2023.input";
    assert "./aoc_inputs/" == "./" + InputFolder + "/";
  }

  /** The file system the cache lives on. Creating a file at a path in
      `unwritable` fails (permissions, a missing folder) and leaves the disk
      as it was. Once the file is created, and so emptied, writing its text
      can stop part way (a full disk), leaving a prefix of the text in it. */
  class Disk {
    var files: map<string, string>
    const unwritable: set<string>

    constructor (files: map<string, string>, unwritable: set<string>)
      ensures this.files == files && this.unwritable == unwritable
    {
      this.files := files;
      this.unwritable := unwritable;
    }
  }

  /** `after` is `before` with the file at `path` holding only a proper
      prefix of `contents`: a write that stopped part way. */
  predicate PartlyWritten(before: map<string, string>, after: map<string, string>, path: string, contents: string)
  {
    exists k :: 0 <= k < |contents| && after == before[path := contents[..k]]
  }

  /** `AocInput`: the cache file of one puzzle. */
  class InputFile {
    const path: string
    const disk: Disk

    /** `AocInput::new`, leaving out the creation of the folder. */
    constructor (day: Byte, year: Int32, disk: Disk)
      ensures path == CachePath(day, year) && this.disk == disk
    {
      path := CachePath(day, year);
      this.disk := disk;
    }

    /** The text of the file when it exists. */
    method Read() returns (r: Option<string>)
      ensures r.Some? <==> path in disk.files
      ensures r.Some? ==> r.value == disk.files[path]
    {
      if path in disk.files {
        r := Some(disk.files[path]);
      } else {
        r := None;
      }
    }

    /** `fs::write`: creates or empties the file, then writes `contents`
        into it. The write succeeds with the file holding exactly `contents`,
        or fails with the disk as it was (the file could not be created) or
        with the file holding a proper prefix of `contents`. */
    method Write(contents: string) returns (r: Result<(), Error>)
      modifies disk
      ensures r.Ok? || r == Err(CacheWriteFailed)
      ensures r.Ok? ==> disk.files == old(disk.files)[path := contents]
      ensures r.Err? ==>
        disk.files == old(disk.files) || PartlyWritten(old(disk.files), disk.files, path, contents)
      ensures path in disk.unwritable ==> r.Err? && disk.files == old(disk.files)
    {
      if path in disk.unwritable {
        return Err(CacheWriteFailed);
      }
      // how much of the text reaches the disk before the write stops
      var k :| 0 <= k <= |contents|;
      disk.files := disk.files[path := contents[..k]];
      if k == |contents| {
        assert contents[..k] == contents;
        r := Ok(());
      } else {
        r := Err(CacheWriteFailed);
      }
    }
  }
}
