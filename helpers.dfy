/** The pure helper functions of app.py: upload extension checks, private room naming,
    the account directory lookups, and the validation done by the account and theme endpoints. */
module Helpers {
  import opened Options
  import opened Text

  const ImageExtensions: set<string> := {"png", "jpg", "jpeg", "gif", "webp"}
  const AudioExtensions: set<string> := {"wav", "mp3", "ogg", "webm"}
  const DocumentExtensions: set<string> := {"pdf", "txt", "doc", "docx"}

  /** The lower-cased extension of a file name, as both upload checks compute it. */
  function Extension(filename: string): string {
    Lower(AfterLastDot(filename))
  }

  /** The extension set of a file type, for the three types allowed_file knows. */
  function ExtensionsOf(fileType: string): set<string> {
    if fileType == "image" then ImageExtensions
    else if fileType == "audio" then AudioExtensions
    else if fileType == "file" then DocumentExtensions
    else {}
  }

  /** allowed_file(filename, file_type): is the name's extension one of those accepted for the type? */
  function AllowedFile(filename: string, fileType: string): bool {
    '.' in filename && Extension(filename) in ExtensionsOf(fileType)
  }

  /** allowed_file accepts exactly the names with a dot at some position i, no dot after it,
      and a lower-cased remainder after i in the set of the requested type; an unknown type
      accepts nothing. */
  lemma AllowedFileMeaning(filename: string, fileType: string)
    ensures AllowedFile(filename, fileType) <==>
      exists i :: 0 <= i < |filename| && filename[i] == '.' && '.' !in filename[i + 1..] &&
        Lower(filename[i + 1..]) in ExtensionsOf(fileType)
    ensures fileType !in {"image", "audio", "file"} ==> !AllowedFile(filename, fileType)
  {
    if AllowedFile(filename, fileType) {
      var r := AfterLastDot(filename);
      var i := |filename| - |r| - 1;
      assert filename[i + 1..] == r;
    }
    if i :| 0 <= i < |filename| && filename[i] == '.' && '.' !in filename[i + 1..] &&
           Lower(filename[i + 1..]) in ExtensionsOf(fileType) {
      AfterLastDotAt(filename, i);
    }
  }

  /** The text after the last dot is what follows any dot that has no dot after it. */
  lemma AfterLastDotAt(s: string, i: int)
    requires 0 <= i < |s| && s[i] == '.' && '.' !in s[i + 1..]
    ensures AfterLastDot(s) == s[i + 1..]
  {
  }

  /** A name without a dot is all extension. */
  lemma AfterLastDotNoDot(s: string)
    requires '.' !in s
    ensures AfterLastDot(s) == s
  {
  }

  datatype FileKind = Image | Audio | Document

  function KindName(k: FileKind): string {
    match k
    case Image => "image"
    case Audio => "audio"
    case Document => "file"
  }

  datatype UploadVerdict = Accepted(kind: FileKind) | EmptyName | UnsupportedExtension

  /** The classification step of upload_file, applied to the already-sanitised file name. */
  function ClassifyUpload(filename: string): UploadVerdict {
    if filename == [] then EmptyName
    else
      var ext := Extension(filename);
      if ext in ImageExtensions then Accepted(Image)
      else if ext in AudioExtensions then Accepted(Audio)
      else if ext in DocumentExtensions then Accepted(Document)
      else UnsupportedExtension
  }

  /** The upload classifier refuses the empty name and otherwise accepts a name as kind k
      exactly when its extension is in the set of k's type name; the three sets are disjoint,
      so the kind is determined. */
  lemma ClassifyUploadMeaning(filename: string, k: FileKind)
    ensures ClassifyUpload(filename) == EmptyName <==> filename == []
    ensures ClassifyUpload(filename) == Accepted(k) <==>
      filename != [] && Extension(filename) in ExtensionsOf(KindName(k))
    ensures ClassifyUpload(filename) == UnsupportedExtension <==>
      filename != [] && Extension(filename) !in ImageExtensions + AudioExtensions + DocumentExtensions
  {
    if filename != [] {
      ExtensionSetsDisjoint(Extension(filename));
    }
  }

  /** No extension belongs to two of the type sets. */
  lemma ExtensionSetsDisjoint(ext: string)
    ensures ext in ImageExtensions ==> ext !in AudioExtensions && ext !in DocumentExtensions
    ensures ext in AudioExtensions ==> ext !in DocumentExtensions
  {
  }

  /** On names that hold a dot, the upload classifier and allowed_file agree: the upload is
      accepted as kind k exactly when allowed_file accepts the name for k's type name. */
  lemma UploadAgreesWithAllowedFile(filename: string, k: FileKind)
    requires '.' in filename
    ensures ClassifyUpload(filename) == Accepted(k) <==> AllowedFile(filename, KindName(k))
  {
    ClassifyUploadMeaning(filename, k);
  }

  /** Without a dot the two disagree: the upload classifier reads the whole lower-cased name as
      the extension, whereas allowed_file refuses the name for every type. */
  lemma DotlessNames(filename: string, fileType: string, k: FileKind)
    requires '.' !in filename
    ensures Extension(filename) == Lower(filename)
    ensures !AllowedFile(filename, fileType)
    ensures ClassifyUpload(filename) == Accepted(k) <==>
      filename != [] && Lower(filename) in ExtensionsOf(KindName(k))
  {
    AfterLastDotNoDot(filename);
    ClassifyUploadMeaning(filename, k);
  }

  /** An instance: "PNG" is uploaded as an image, yet allowed_file refuses it. */
  lemma DotlessNamesDiverge()
    ensures ClassifyUpload("PNG") == Accepted(Image)
    ensures !AllowedFile("PNG", "image")
  {
    DotlessNames("PNG", "image", Image);
    assert Lower("PNG") == "png";
  }

  /** create_private_room_id: "private_" followed by the two names in sorted order. */
  function PrivateRoomId(user1: string, user2: string): (r: string)
    ensures exists lo, hi :: {lo, hi} == {user1, user2} && LexLe(lo, hi) && r == "private_" + lo + "_" + hi
  {
    if LexLe(user1, user2) then "private_" + user1 + "_" + user2
    else
      LexLeTotal(user1, user2);
      "private_" + user2 + "_" + user1
  }

  /** The private room of two users does not depend on who opens it. */
  lemma PrivateRoomIdSymmetric(a: string, b: string)
    ensures PrivateRoomId(a, b) == PrivateRoomId(b, a)
  {
    LexLeTotal(a, b);
    if LexLe(a, b) && LexLe(b, a) {
      LexLeAntisymmetric(a, b);
    }
  }

  /** An entry of the account directory (the password is not modelled). */
  datatype Account = Account(displayName: string, isAdmin: bool)

  /** The accounts app.py starts with. */
  function SeedAccounts(): map<string, Account> {
    map[
      "yasin" := Account("یاسین", true),
      "leila" := Account("لیلا", false),
      "zeynab" := Account("زینب", false),
      "tasnim" := Account("تسنیم", false)
    ]
  }

  /** get_user_display_name: the account's display name, or the username itself. */
  function DisplayName(accounts: map<string, Account>, username: string): string {
    if username in accounts then accounts[username].displayName else username
  }

  /** is_user_admin: the account's admin flag, false for an unknown user. */
  function IsAdmin(accounts: map<string, Account>, username: string): bool {
    username in accounts && accounts[username].isAdmin
  }

  /** Of the seed accounts only "yasin" is an administrator; unknown names show as themselves. */
  lemma SeedDirectory(u: string)
    ensures IsAdmin(SeedAccounts(), u) <==> u == "yasin"
    ensures u !in SeedAccounts() ==> DisplayName(SeedAccounts(), u) == u
  {
  }

  /** After an account is stored under name, the name shows the new display name and every
      other user shows what it showed before. */
  lemma DisplayNameAfterStore(accounts: map<string, Account>, name: string, a: Account, u: string)
    ensures DisplayName(accounts[name := a], u) == (if u == name then a.displayName else DisplayName(accounts, u))
    ensures u != name && u !in accounts ==> DisplayName(accounts[name := a], u) == u
  {
  }

  /** After an account is stored under name, only that name's administrator flag can change. */
  lemma IsAdminAfterStore(accounts: map<string, Account>, name: string, a: Account, u: string)
    ensures IsAdmin(accounts[name := a], u) <==> (if u == name then a.isAdmin else IsAdmin(accounts, u))
    ensures u != name && u !in accounts ==> !IsAdmin(accounts[name := a], u)
  {
  }

  /** The HTTP statuses of the REST endpoints. */
  datatype HttpStatus = Ok | BadRequest | Unauthorized | Forbidden | NotFound

  /** The checks admin_create_user makes, in its order, before it inserts an account. */
  function CreateUserCheck(accounts: map<string, Account>, session: Option<string>,
                           newUser: string, newPassword: string): (status: HttpStatus)
    ensures status == Ok <==>
      session.Some? && IsAdmin(accounts, session.value) &&
      !AllSpace(newUser) && !AllSpace(newPassword) && Strip(newUser) !in accounts
    ensures status == Unauthorized <==> session.None?
    ensures status == Forbidden <==> session.Some? && !IsAdmin(accounts, session.value)
    ensures status == BadRequest <==>
      session.Some? && IsAdmin(accounts, session.value) &&
      (AllSpace(newUser) || AllSpace(newPassword) || Strip(newUser) in accounts)
    ensures status in {Ok, Unauthorized, Forbidden, BadRequest}
  {
    StripBlankIffAllSpace(newUser);
    StripBlankIffAllSpace(newPassword);
    if session.None? then Unauthorized
    else if !IsAdmin(accounts, session.value) then Forbidden
    else if Strip(newUser) == [] || Strip(newPassword) == [] then BadRequest
    else if Strip(newUser) in accounts then BadRequest
    else Ok
  }

  /** update_user_theme's whitelist. */
  function ThemeCheck(session: Option<string>, theme: Option<string>): (status: HttpStatus)
    ensures status == Ok <==> session.Some? && theme.GetOr("light") in {"light", "dark"}
    ensures status == Unauthorized <==> session.None?
    ensures status == BadRequest <==> session.Some? && theme.GetOr("light") !in {"light", "dark"}
    ensures status in {Ok, Unauthorized, BadRequest}
  {
    if session.None? then Unauthorized
    else if theme.GetOr("light") !in ["light", "dark"] then BadRequest
    else Ok
  }
}
