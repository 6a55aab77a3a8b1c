/** The record that both inventories and the merged report are made of
    (`UploadedFile`), and the two enumerations it uses. */
module UploadedFiles {
  import opened Wrappers

  /** `PathType`: UNKNOWN = -1, FILE = 0, FOLDER = 1. */
  datatype PathType = Unknown | File | Folder

  /** The enumeration value of each member. */
  function PathTypeValue(p: PathType): int
  {
    match p
    case Unknown => -1
    case File => 0
    case Folder => 1
  }

  /** `PathType(v)`: the member whose value is `v`; Python raises
      `ValueError` for any other integer. */
  function PathTypeOf(v: int): (r: Option<PathType>)
    ensures r.Some? <==> -1 <= v <= 1
    ensures r.Some? ==> PathTypeValue(r.value) == v
  {
    if v == -1 then Some(PathType.Unknown)
    else if v == 0 then Some(File)
    else if v == 1 then Some(Folder)
    else None
  }

  /** The values are pairwise distinct: looking a member up by its own value
      gives that member back. */
  lemma PathTypeValueRoundTrip(p: PathType)
    ensures PathTypeOf(PathTypeValue(p)) == Some(p)
  {
  }

  /** `PathType.__str__`: the member's name, except that UNKNOWN renders as
      the empty string. */
  function PathTypeStr(p: PathType): (s: string)
    ensures s == "" <==> p == PathType.Unknown
    ensures p == File ==> s == "FILE"
    ensures p == Folder ==> s == "FOLDER"
  {
    if p == PathType.Unknown then ""
    else if p == File then "FILE"
    else "FOLDER"
  }

  /** Different members render differently, so the report never confuses them. */
  lemma PathTypeStrInjective(p: PathType, q: PathType)
    requires PathTypeStr(p) == PathTypeStr(q)
    ensures p == q
  {
  }

  /** `SharedStatus`: UNKNOWN = -1, NOT_SHARED = 0, SHARED = 1. */
  datatype SharedStatus = Unknown | NotShared | Shared

  function SharedStatusValue(s: SharedStatus): int
  {
    match s
    case Unknown => -1
    case NotShared => 0
    case Shared => 1
  }

  /** `SharedStatus(v)`; Python raises `ValueError` for any other integer. */
  function SharedStatusOf(v: int): (r: Option<SharedStatus>)
    ensures r.Some? <==> -1 <= v <= 1
    ensures r.Some? ==> SharedStatusValue(r.value) == v
  {
    if v == -1 then Some(SharedStatus.Unknown)
    else if v == 0 then Some(NotShared)
    else if v == 1 then Some(Shared)
    else None
  }

  lemma SharedStatusValueRoundTrip(s: SharedStatus)
    ensures SharedStatusOf(SharedStatusValue(s)) == Some(s)
  {
  }

  /** `SharedStatus.__str__`: the member's name, UNKNOWN as the empty string. */
  function SharedStatusStr(s: SharedStatus): (r: string)
    ensures r == "" <==> s == SharedStatus.Unknown
    ensures s == NotShared ==> r == "NOT_SHARED"
    ensures s == Shared ==> r == "SHARED"
  {
    if s == SharedStatus.Unknown then ""
    else if s == NotShared then "NOT_SHARED"
    else "SHARED"
  }

  lemma SharedStatusStrInjective(s: SharedStatus, t: SharedStatus)
    requires SharedStatusStr(s) == SharedStatusStr(t)
    ensures s == t
  {
  }

  /** A `datetime` is only ever copied, never inspected: it stands for the
      whole seconds it was built from. */
  datatype Timestamp = Timestamp(seconds: int)

  /** The dataclass `UploadedFile`, field for field and in declaration order. */
  datatype UploadedFile = UploadedFile(
    name: string,
    localLabel: string,
    localPathType: PathType,
    localFullPath: string,
    localSize: Option<int>,
    localDate: Option<Timestamp>,
    megaAccount: string,
    megaPathType: PathType,
    megaFullPath: string,
    megaSize: Option<int>,
    megaDate: Option<Timestamp>,
    megaShared: SharedStatus,
    megaLink: string,
    status: string)

  /** The value held in one field, as `elem.__dict__[field]` returns it. */
  datatype FieldValue =
    | Text(text: string)
    | Kind(pathType: PathType)
    | Size(size: Option<int>)
    | Date(date: Option<Timestamp>)
    | Sharing(shared: SharedStatus)

  /** True when the value is written out as an empty cell: an empty string,
      an UNKNOWN member (whose `__str__` is empty) or `None`. */
  predicate IsBlank(v: FieldValue)
  {
    match v
    case Text(t) => t == ""
    case Kind(p) => PathTypeStr(p) == ""
    case Size(n) => n.None?
    case Date(d) => d.None?
    case Sharing(s) => SharedStatusStr(s) == ""
  }

  /** `UploadedFile.get_fields()`: the field names in declaration order, which
      is the column order of the exported report. */
  function Fields(): (r: seq<string>)
    ensures |r| == 14
    ensures r[0] == "name" && r[13] == "status"
    ensures forall i, j :: 0 <= i < j < |r| ==> r[i] != r[j]
    ensures "mega_id" !in r
    ensures exists i, j :: 0 <= i < j < |r| && r[i] == "mega_shared" && r[j] == "mega_link"
  {
    var r := ["name", "local_label", "local_path_type", "local_full_path", "local_size", "local_date",
              "mega_account", "mega_path_type", "mega_full_path", "mega_size", "mega_date",
              "mega_shared", "mega_link", "status"];
    assert r[11] == "mega_shared" && r[12] == "mega_link";
    r
  }

  /** `elem.__dict__.get(field)`: the value of the field called `field`, or
      nothing when the record has no such field. */
  function Field(e: UploadedFile, field: string): (r: Option<FieldValue>)
    ensures r.Some? <==> field in Fields()
    ensures field == "name" ==> r == Some(Text(e.name))
    ensures field == "status" ==> r == Some(Text(e.status))
  {
    if field == "name" then Some(Text(e.name))
    else if field == "local_label" then Some(Text(e.localLabel))
    else if field == "local_path_type" then Some(Kind(e.localPathType))
    else if field == "local_full_path" then Some(Text(e.localFullPath))
    else if field == "local_size" then Some(Size(e.localSize))
    else if field == "local_date" then Some(Date(e.localDate))
    else if field == "mega_account" then Some(Text(e.megaAccount))
    else if field == "mega_path_type" then Some(Kind(e.megaPathType))
    else if field == "mega_full_path" then Some(Text(e.megaFullPath))
    else if field == "mega_size" then Some(Size(e.megaSize))
    else if field == "mega_date" then Some(Date(e.megaDate))
    else if field == "mega_shared" then Some(Sharing(e.megaShared))
    else if field == "mega_link" then Some(Text(e.megaLink))
    else if field == "status" then Some(Text(e.status))
    else None
  }

  /** `UploadedFile()` */
  function Default(): UploadedFile
  {
    UploadedFile("", "", PathType.Unknown, "", None, None,
                 "", PathType.Unknown, "", None, None, SharedStatus.Unknown, "", "")
  }

  /** Every column of a default record is empty. */
  lemma DefaultIsBlank()
    ensures forall f :: f in Fields() ==> Field(Default(), f).Some? && IsBlank(Field(Default(), f).value)
  {
  }

  /** The local side of a record: the five `local_*` fields. */
  datatype LocalSide = LocalSide(
    rootLabel: string, pathType: PathType, fullPath: string, size: Option<int>, date: Option<Timestamp>)

  /** The Mega side of a record: the seven `mega_*` fields. */
  datatype MegaSide = MegaSide(
    account: string, pathType: PathType, fullPath: string, size: Option<int>, date: Option<Timestamp>,
    shared: SharedStatus, link: string)

  function LocalOf(e: UploadedFile): LocalSide
  {
    LocalSide(e.localLabel, e.localPathType, e.localFullPath, e.localSize, e.localDate)
  }

  function MegaOf(e: UploadedFile): MegaSide
  {
    MegaSide(e.megaAccount, e.megaPathType, e.megaFullPath, e.megaSize, e.megaDate, e.megaShared, e.megaLink)
  }

  /** A record built from a name, optional sides and a status; an absent side
      keeps the defaults of `UploadedFile()`. */
  function Assemble(name: string, local: Option<LocalSide>, mega: Option<MegaSide>, status: string): (r: UploadedFile)
    ensures r.name == name && r.status == status
    ensures LocalOf(r) == if local.Some? then local.value else LocalOf(Default())
    ensures MegaOf(r) == if mega.Some? then mega.value else MegaOf(Default())
  {
    var l := if local.Some? then local.value else LocalOf(Default());
    var m := if mega.Some? then mega.value else MegaOf(Default());
    UploadedFile(name, l.rootLabel, l.pathType, l.fullPath, l.size, l.date,
                 m.account, m.pathType, m.fullPath, m.size, m.date, m.shared, m.link, status)
  }

}
