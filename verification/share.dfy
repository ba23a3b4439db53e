/** The helpers the upload folder is managed with (common/share.go,
    filesys/utils.go and api/share.go hold three identical copies): a
    stored upload is named by the standard base64 encoding of its name
    without extension, and the folder listing decodes those names back. */
module Share {
  import opened Wrappers
  import opened Base64

  const ChunkSize := 1000
  const PageSize := 20
  /** Sizes are reported in whole megabytes. */
  const Megabyte := 1000000

  const Dot: byte := 46     // '.'
  const Slash: byte := 47   // '/', the path separator

  // ---------------------------------------------------------------------
  // filepath.Ext and strings.TrimSuffix

  /** Where the extension of `name` starts: the last `.` that no `/`
      follows; `|name|` (an empty extension) when there is none. */
  predicate IsExtStart(name: seq<byte>, k: nat)
  {
    && k <= |name|
    && (forall j | k < j < |name| :: name[j] != Dot && name[j] != Slash)
    && (k < |name| ==> name[k] == Dot)
    && (k == |name| ==> forall j | 0 <= j < |name| && name[j] == Dot :: Slash in name[j..])
  }

  /** `filepath.Ext` scans back from the end of the name and stops at the
      first `.` (the extension starts there) or `/` (no extension). */
  function ScanBack(name: seq<byte>, i: nat): (k: nat)
    requires i <= |name|
    requires forall j | i <= j < |name| :: name[j] != Dot && name[j] != Slash
    ensures IsExtStart(name, k)
  {
    if i == 0 then |name|
    else if name[i - 1] == Slash then
      assert forall j | 0 <= j < i - 1 :: name[i - 1] in name[j..] by {
        forall j | 0 <= j < i - 1 ensures name[i - 1] in name[j..] {
          assert name[j..][i - 1 - j] == name[i - 1];
        }
      }
      |name|
    else if name[i - 1] == Dot then i - 1
    else ScanBack(name, i - 1)
  }

  function ExtStart(name: seq<byte>): (k: nat)
    ensures IsExtStart(name, k)
  {
    ScanBack(name, |name|)
  }

  /** The extension start is determined by the name: the predicate admits
      exactly one position. */
  lemma ExtStartUnique(name: seq<byte>, k: nat)
    requires IsExtStart(name, k)
    ensures k == ExtStart(name)
  {
  }

  /** `filepath.Ext`. */
  function Ext(name: seq<byte>): (r: seq<byte>)
    ensures |r| <= |name| && name[..|name| - |r|] + r == name
    ensures |r| > 0 ==> r[0] == Dot
    ensures forall j | 0 < j < |r| :: r[j] != Dot && r[j] != Slash
  {
    name[ExtStart(name)..]
  }

  /** `strings.TrimSuffix`: `s` without `suffix` when it ends with it,
      otherwise `s` unchanged. */
  function TrimSuffix(s: seq<byte>, suffix: seq<byte>): (r: seq<byte>)
    ensures |suffix| <= |s| && s[|s| - |suffix|..] == suffix ==> r + suffix == s
    ensures !(|suffix| <= |s| && s[|s| - |suffix|..] == suffix) ==> r == s
  {
    if |suffix| <= |s| && s[|s| - |suffix|..] == suffix then s[..|s| - |suffix|] else s
  }

  /** The name the upload is stored under is encoded from: the name up to
      where its extension starts. */
  function Stem(name: seq<byte>): (r: seq<byte>)
    ensures r == name[..ExtStart(name)]
    ensures r + Ext(name) == name
  {
    TrimSuffix(name, Ext(name))
  }

  // ---------------------------------------------------------------------
  // EncodeFilename / DecodeFilename

  /** `EncodeFilename`: the standard base64 encoding of the name without
      its extension. */
  function EncodeFilename(name: seq<byte>): (r: seq<byte>)
    ensures |r| == 4 * ((|Stem(name)| + 2) / 3)
    ensures forall i | 0 <= i < |r| :: IsDigit(r[i]) || r[i] == Pad
  {
    Encode(Stem(name))
  }

  /** `DecodeFilename`: base64 decoding; invalid input is an error. */
  function DecodeFilename(name: seq<byte>): (r: Result<seq<byte>, DecodeError>)
    ensures Decode(name).Err? ==> r.Err?
  {
    Decode(name)
  }

  /** Decoding an encoded name gives back the name without extension. */
  lemma FilenameRoundTrip(name: seq<byte>)
    ensures DecodeFilename(EncodeFilename(name)) == Ok(name[..ExtStart(name)])
  {
    DecodeEncode(Stem(name));
  }

  /** Two names are stored under the same encoded name exactly when their
      stems agree. */
  lemma EncodeFilenameInjective(a: seq<byte>, b: seq<byte>)
    ensures EncodeFilename(a) == EncodeFilename(b) <==> Stem(a) == Stem(b)
  {
    FilenameRoundTrip(a);
    FilenameRoundTrip(b);
  }

  /** A listed name is the stem of the uploaded one, and encoding it again
      reaches the stored file only when the stem has no extension of its
      own: `a.b.txt` is listed as `a.b`, which encodes as `a`. */
  lemma ReencodeListed(name: seq<byte>)
    ensures EncodeFilename(Stem(name)) == EncodeFilename(name) <==> ExtStart(Stem(name)) == |Stem(name)|
  {
    var s := Stem(name);
    EncodeFilenameInjective(s, name);
    assert Stem(s) == s[..ExtStart(s)];
    if ExtStart(s) < |s| {
      assert |Stem(s)| < |s|;
    }
  }

  /** Names that decode fail `DecodeFilename` with an error: a byte
      outside the alphabet that is not a line break. */
  lemma DecodeFilenameRejects(name: seq<byte>, i: nat)
    requires i < |name| && !IsDigit(name[i]) && name[i] != Pad && name[i] != CR && name[i] != LF
    ensures DecodeFilename(name).Err?
  {
    RejectsForeignByte(name, i);
  }

  /** Standard base64 uses `/` as a digit: the stem `???` is stored under
      `Pz8/`, which names a path inside the upload folder. */
  lemma EncodedSlashExample()
    ensures EncodeFilename([63, 63, 63, 46, 116, 120, 116]) == [80, 122, 56, 47]   // "???.txt"
  {
    var name: seq<byte> := [63, 63, 63, 46, 116, 120, 116];
    ExtStartUnique(name, 3);
    assert Stem(name) == [63, 63, 63];
  }

  // ---------------------------------------------------------------------
  // ReadUploadFolder

  /** A directory entry's name is never empty. */
  type EntryName = s: seq<byte> | |s| > 0 witness [Dot]

  /** A directory entry as `ioutil.ReadDir` reports it. */
  datatype DirEntry = DirEntry(name: EntryName, size: nat)

  /** `common.File`: the decoded name and the size in whole megabytes. */
  datatype UploadedFile = UploadedFile(fileName: seq<byte>, size: nat)

  datatype ListError = ReadDirFailed

  /** Whether an entry is listed, and as what: hidden entries (name
      starting with `.`) and entries whose name does not decode are not. */
  function Listing(e: DirEntry): (r: Option<UploadedFile>)
    ensures r.Some? <==> e.name[0] != Dot && Decode(e.name).Ok?
    ensures r.Some? ==> r.value.fileName == Decode(e.name).value && r.value.size * Megabyte <= e.size < (r.value.size + 1) * Megabyte
  {
    if e.name[0] == Dot then None
    else match DecodeFilename(e.name)
      case Err(_) => None
      case Ok(n) => Some(UploadedFile(n, e.size / Megabyte))
  }

  function Listed(e: DirEntry): (r: seq<UploadedFile>)
    ensures |r| <= 1
  {
    match Listing(e) case None => [] case Some(f) => [f]
  }

  /** The loop of `ReadUploadFolder` over the directory's entries. */
  function ListEntries(es: seq<DirEntry>): (r: seq<UploadedFile>)
    ensures |r| <= |es|
  {
    if |es| == 0 then []
    else
      Listed(es[0]) + ListEntries(es[1..])
  }

  /** `ReadUploadFolder` over the directory listing (`None` when the
      directory cannot be read): a read error gives the error (with an
      empty list); otherwise the entries that are listed, in order. */
  function ReadUploadFolder(listing: Option<seq<DirEntry>>): (r: Result<seq<UploadedFile>, ListError>)
    ensures r.Err? <==> listing.None?
    ensures r.Ok? ==> |r.value| <= |listing.value|
  {
    match listing
    case None => Err(ReadDirFailed)
    case Some(es) => Ok(ListEntries(es))
  }

  /** The listing keeps entry order: listing two runs of entries one after
      the other lists each run in turn. */
  lemma {:induction false} ListEntriesAppend(a: seq<DirEntry>, b: seq<DirEntry>)
    ensures ListEntries(a + b) == ListEntries(a) + ListEntries(b)
  {
    if |a| > 0 {
      var a' := a[1..];
      assert (a + b)[0] == a[0];
      assert (a + b)[1..] == a' + b;
      ListEntriesAppend(a', b);
      calc {
        ListEntries(a + b);
        Listed(a[0]) + ListEntries(a' + b);
        Listed(a[0]) + (ListEntries(a') + ListEntries(b));
        (Listed(a[0]) + ListEntries(a')) + ListEntries(b);
        ListEntries(a) + ListEntries(b);
      }
    } else {
      assert a + b == b;
    }
  }

  /** A file is in the listing exactly when some entry is listed as it. */
  lemma {:induction false} ListEntriesMember(es: seq<DirEntry>, f: UploadedFile)
    ensures f in ListEntries(es) <==> exists i | 0 <= i < |es| :: Listing(es[i]) == Some(f)
  {
    if |es| > 0 {
      ListEntriesMember(es[1..], f);
      if f in ListEntries(es[1..]) {
        var i :| 0 <= i < |es[1..]| && Listing(es[1..][i]) == Some(f);
        assert Listing(es[i + 1]) == Some(f);
      }
      if exists i | 0 <= i < |es| :: Listing(es[i]) == Some(f) {
        var i :| 0 <= i < |es| && Listing(es[i]) == Some(f);
        if i > 0 {
          assert Listing(es[1..][i - 1]) == Some(f);
        }
      }
    }
  }

  /** A stored upload, named by `EncodeFilename`, is listed under its name
      without extension: an encoded name never starts with `.`. */
  lemma UploadIsListed(es: seq<DirEntry>, i: nat, name: seq<byte>)
    requires i < |es| && es[i].name == EncodeFilename(name)
    ensures UploadedFile(Stem(name), es[i].size / Megabyte) in ListEntries(es)
  {
    var n := es[i].name;
    assert IsDigit(n[0]) || n[0] == Pad;
    FilenameRoundTrip(name);
    ListEntriesMember(es, UploadedFile(Stem(name), es[i].size / Megabyte));
  }

  /** Hidden entries never reach the listing. */
  lemma HiddenNotListed(es: seq<DirEntry>, f: UploadedFile)
    requires forall i | 0 <= i < |es| :: es[i].name[0] == Dot
    ensures f !in ListEntries(es)
  {
    ListEntriesMember(es, f);
  }
}
