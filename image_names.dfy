/** The camera-image loaders of both databases: a PNG file name carries its
    capture time after the last `_`, and each readable name becomes one
    `camera_images` record. */
module ImageNames {
  import opened Wrappers
  import opened Numbers

  /** `name.endswith(".png")` */
  predicate EndsWithPng(name: string) {
    |name| >= 4 && name[|name| - 4..] == ".png"
  }

  /** `s.split('_')[-1]`: the text after the last `_`, or all of `s`. */
  function LastPiece(s: string): (r: string)
    ensures |r| <= |s|
    ensures '_' !in r
  {
    if s == [] then []
    else if s[|s| - 1] == '_' then []
    else LastPiece(s[..|s| - 1]) + [s[|s| - 1]]
  }

  predicate PngAt(s: string, i: nat) {
    i + 4 <= |s| && s[i] == '.' && s[i + 1] == 'p' && s[i + 2] == 'n' && s[i + 3] == 'g'
  }

  /** `s.replace('.png', '')`: every occurrence, left to right, removed. */
  function RemovePng(s: string): (r: string)
    ensures |r| <= |s|
    decreases |s|
  {
    if |s| < 4 then s
    else if PngAt(s, 0) then RemovePng(s[4..])
    else [s[0]] + RemovePng(s[1..])
  }

  /** The timestamp text of an image file name. */
  function TimestampText(name: string): string {
    RemovePng(LastPiece(name))
  }

  /** `float(timestamp_text)`: `None` where it raises `ValueError`. */
  function ImageTimestamp(name: string): Option<Decimal> {
    ParseDecimal(TimestampText(name))
  }

  /** The parameters of one `camera_images` insert; the image path is
      `os.path.join(directory, fileName)`. */
  datatype ImageRecord = ImageRecord(
    timestamp: Decimal, cameraType: string, directory: string, fileName: string, bagFile: string)

  /** The record one directory entry gives, or `None` when it is skipped:
      a name without the `.png` suffix, or one whose timestamp is not a
      number. */
  function RecordOf(directory: string, name: string, cameraType: string, bagFile: string): (r: Option<ImageRecord>)
    ensures r.Some? <==> EndsWithPng(name) && ImageTimestamp(name).Some?
  {
    if EndsWithPng(name) then
      match ImageTimestamp(name)
      case Some(t) => Some(ImageRecord(t, cameraType, directory, name, bagFile))
      case None => None
    else None
  }

  /** The records of a directory listing, in listing order. */
  function ImageRecords(directory: string, listing: seq<string>, cameraType: string, bagFile: string): (r: seq<ImageRecord>)
    ensures |r| <= |listing|
  {
    if listing == [] then []
    else
      var init := ImageRecords(directory, listing[..|listing| - 1], cameraType, bagFile);
      match RecordOf(directory, listing[|listing| - 1], cameraType, bagFile)
      case Some(rec) => init + [rec]
      case None => init
  }

  /** The records of two listings one after the other are those of each,
      one after the other: entries are taken one at a time, in order. */
  lemma {:induction false} ImageRecordsAppend(directory: string, a: seq<string>, b: seq<string>, cameraType: string, bagFile: string)
    ensures ImageRecords(directory, a + b, cameraType, bagFile) ==
            ImageRecords(directory, a, cameraType, bagFile) + ImageRecords(directory, b, cameraType, bagFile)
    decreases |b|
  {
    if b == [] {
      assert a + b == a;
    } else {
      var b' := b[..|b| - 1];
      assert (a + b)[..|a + b| - 1] == a + b';
      ImageRecordsAppend(directory, a, b', cameraType, bagFile);
    }
  }

  /** The records of a listing: those before its last entry, then the
      last entry's record when it has one. */
  lemma ImageRecordsLast(directory: string, listing: seq<string>, cameraType: string, bagFile: string)
    requires listing != []
    ensures var before := ImageRecords(directory, listing[..|listing| - 1], cameraType, bagFile);
      var o := RecordOf(directory, listing[|listing| - 1], cameraType, bagFile);
      ImageRecords(directory, listing, cameraType, bagFile) == if o.Some? then before + [o.value] else before
  {
  }

  lemma {:induction false} ImageRecordsSound(directory: string, listing: seq<string>, cameraType: string, bagFile: string, rec: ImageRecord)
    requires rec in ImageRecords(directory, listing, cameraType, bagFile)
    ensures exists i :: 0 <= i < |listing| && RecordOf(directory, listing[i], cameraType, bagFile) == Some(rec)
  {
    var init := listing[..|listing| - 1];
    ImageRecordsLast(directory, listing, cameraType, bagFile);
    if rec in ImageRecords(directory, init, cameraType, bagFile) {
      ImageRecordsSound(directory, init, cameraType, bagFile, rec);
      var i :| 0 <= i < |init| && RecordOf(directory, init[i], cameraType, bagFile) == Some(rec);
      assert listing[i] == init[i];
    } else {
      assert RecordOf(directory, listing[|listing| - 1], cameraType, bagFile) == Some(rec);
    }
  }

  lemma {:induction false} ImageRecordsComplete(directory: string, listing: seq<string>, cameraType: string, bagFile: string, i: nat)
    requires i < |listing| && RecordOf(directory, listing[i], cameraType, bagFile).Some?
    ensures RecordOf(directory, listing[i], cameraType, bagFile).value in ImageRecords(directory, listing, cameraType, bagFile)
  {
    var init := listing[..|listing| - 1];
    ImageRecordsLast(directory, listing, cameraType, bagFile);
    if i < |listing| - 1 {
      assert init[i] == listing[i];
      ImageRecordsComplete(directory, init, cameraType, bagFile, i);
    }
  }

  /** A record is produced exactly for each entry that is a `.png` name
      with a numeric timestamp. */
  lemma ImageRecordsMembers(directory: string, listing: seq<string>, cameraType: string, bagFile: string, rec: ImageRecord)
    ensures rec in ImageRecords(directory, listing, cameraType, bagFile) <==>
      exists i :: 0 <= i < |listing| && RecordOf(directory, listing[i], cameraType, bagFile) == Some(rec)
  {
    if rec in ImageRecords(directory, listing, cameraType, bagFile) {
      ImageRecordsSound(directory, listing, cameraType, bagFile, rec);
    }
    if exists i :: 0 <= i < |listing| && RecordOf(directory, listing[i], cameraType, bagFile) == Some(rec) {
      var i :| 0 <= i < |listing| && RecordOf(directory, listing[i], cameraType, bagFile) == Some(rec);
      ImageRecordsComplete(directory, listing, cameraType, bagFile, i);
    }
  }

  /** Every record names a listed `.png` file, holds that file's parsed
      timestamp, and the camera type, directory and bag file given. */
  lemma ImageRecordFields(directory: string, listing: seq<string>, cameraType: string, bagFile: string, rec: ImageRecord)
    requires rec in ImageRecords(directory, listing, cameraType, bagFile)
    ensures rec.fileName in listing && EndsWithPng(rec.fileName)
    ensures ImageTimestamp(rec.fileName) == Some(rec.timestamp)
    ensures rec.cameraType == cameraType && rec.directory == directory && rec.bagFile == bagFile
  {
    ImageRecordsMembers(directory, listing, cameraType, bagFile, rec);
    var i :| 0 <= i < |listing| && RecordOf(directory, listing[i], cameraType, bagFile) == Some(rec);
  }

  lemma {:induction false} LastPieceAfter(prefix: string, piece: string)
    requires '_' !in piece
    ensures LastPiece(prefix + "_" + piece) == piece
    decreases |piece|
  {
    var s := prefix + "_" + piece;
    if piece == [] {
      assert s[|s| - 1] == '_';
    } else {
      var p := piece[..|piece| - 1];
      assert s[..|s| - 1] == prefix + "_" + p;
      assert piece[|piece| - 1] in piece;
      LastPieceAfter(prefix, p);
      assert p + [piece[|piece| - 1]] == piece;
    }
  }

  lemma {:induction false} RemoveTrailingPng(t: string)
    requires 'p' !in t
    ensures RemovePng(t + ".png") == t
    decreases |t|
  {
    if t == [] {
      assert PngAt(".png", 0) && ".png"[4..] == [];
      assert t + ".png" == ".png";
    } else {
      var s, rest := t + ".png", t[1..];
      assert !PngAt(s, 0) by {
        if |t| >= 2 { assert t[1] in t; } else { assert s[1] == '.'; }
      }
      assert 'p' !in rest by {
        forall c | c in rest ensures c != 'p' { assert c in t; }
      }
      RemoveTrailingPng(rest);
      assert s[1..] == rest + ".png";
      assert [t[0]] + rest == t;
    }
  }

  /** A file named `<prefix>_<number>.png`, the number written in plain
      decimal notation, gives that number back as its timestamp. */
  lemma ImageTimestampOfName(prefix: string, d: Decimal)
    requires ValidDecimal(d)
    ensures EndsWithPng(prefix + "_" + DecimalText(d) + ".png")
    ensures ImageTimestamp(prefix + "_" + DecimalText(d) + ".png") == Some(d)
  {
    var t := DecimalText(d);
    DecimalTextChars(d);
    assert 'p' !in t && '_' !in t by {
      forall i | 0 <= i < |t| ensures t[i] != 'p' && t[i] != '_' { assert IsNumberChar(t[i]); }
    }
    assert '_' !in t + ".png";
    assert prefix + "_" + t + ".png" == prefix + "_" + (t + ".png");
    LastPieceAfter(prefix, t + ".png");
    RemoveTrailingPng(t);
    ParseDecimalText(d);
  }

  /** A `.png` name whose timestamp text holds anything but digits, a
      point or a sign (`frame_bad.png`) is skipped, not recorded. */
  lemma NonNumericNameSkipped(directory: string, name: string, cameraType: string, bagFile: string, i: nat)
    requires i < |TimestampText(name)|
    requires var c := TimestampText(name)[i]; !IsNumberChar(c) && c != '+'
    ensures RecordOf(directory, name, cameraType, bagFile) == None
  {
    ParseDecimalChars(TimestampText(name));
    assert ImageTimestamp(name) == None;
  }
}
