/** The WTForms forms: what each form accepts, as a predicate over the submitted
    values (and, for registration, the current `users` table). */
module Forms {
  import opened Wrappers
  import opened Text
  import opened Dates
  import opened Models

  /** `DataRequired`: the value is not empty and not only whitespace. */
  predicate DataRequired(s: string) {
    !Blank(s)
  }

  /** `LoginForm`. The `username` field carries the identifier for both roles. */
  datatype LoginForm = LoginForm(username: string, password: string, roleSelection: string)

  /** The choices of `role_selection`. */
  const LOGIN_ROLES: seq<string> := [ADMIN, ANGGOTA]

  predicate LoginFormValid(f: LoginForm) {
    && DataRequired(f.username)
    && DataRequired(f.password)
    && DataRequired(f.roleSelection)
    && f.roleSelection in LOGIN_ROLES
  }

  /** A valid login form names one of the two roles. */
  lemma LoginRoleIsAdminOrMember(f: LoginForm)
    requires LoginFormValid(f)
    ensures f.roleSelection == ADMIN || f.roleSelection == ANGGOTA
  {
  }

  /** `RegistrationForm`. */
  datatype RegistrationForm = RegistrationForm(
    username: string,
    namaLengkap: string,
    namaLapangan: string,
    nia: string,
    jenjangKeanggotaan: string,
    password: string,
    confirmPassword: string,
    role: string)

  /** The choices of `jenjang_keanggotaan`. */
  const JENJANG_CHOICES: seq<string> := ["Anggota Muda", "Anggota Penuh", "Anggota Kehormatan"]

  /** The choices of the registration `role` field. */
  const REGISTRATION_ROLES: seq<string> := [ANGGOTA]

  /** `validate_username` finds a row: `User.query.filter_by(username=...).first()`. */
  predicate UsernameTaken(users: Users, username: string) {
    exists u :: u in users && u.username == username
  }

  /** `validate_nia` finds a row. */
  predicate NiaTaken(users: Users, nia: string) {
    exists u :: u in users && u.nia == nia
  }

  /** Every validator of `RegistrationForm` passes. */
  predicate RegistrationValid(users: Users, f: RegistrationForm) {
    && DataRequired(f.username) && 4 <= |f.username| <= 50 && !UsernameTaken(users, f.username)
    && DataRequired(f.namaLengkap) && 3 <= |f.namaLengkap| <= 100
    && DataRequired(f.namaLapangan) && 3 <= |f.namaLapangan| <= 100
    && DataRequired(f.nia) && 4 <= |f.nia| <= 50 && !NiaTaken(users, f.nia)
    && DataRequired(f.jenjangKeanggotaan) && f.jenjangKeanggotaan in JENJANG_CHOICES
    && DataRequired(f.password) && 6 <= |f.password|
    && DataRequired(f.confirmPassword) && f.confirmPassword == f.password
    && DataRequired(f.role) && f.role in REGISTRATION_ROLES
  }

  /** A registration naming a username or a NIA already in the table is refused. */
  lemma RegistrationRejectsTakenKeys(users: Users, f: RegistrationForm, u: User)
    requires u in users
    requires u.username == f.username || u.nia == f.nia
    ensures !RegistrationValid(users, f)
  {
  }

  /** A valid registration fits the `users` columns: `username` and `nia` are
      `String(50)`, `nama_lengkap` and `nama_lapangan` are `String(100)`,
      `jenjang_keanggotaan` is `String(50)`, and the password was confirmed. */
  lemma RegistrationFitsColumns(users: Users, f: RegistrationForm)
    requires RegistrationValid(users, f)
    ensures |f.username| <= 50 && |f.nia| <= 50
    ensures |f.namaLengkap| <= 100 && |f.namaLapangan| <= 100
    ensures |f.jenjangKeanggotaan| <= 50
    ensures |f.password| >= 6 && f.confirmPassword == f.password
  {
  }

  /** An uploaded file part: its client-side name and the `content_length` its
      headers declare. */
  datatype Upload = Upload(filename: string, contentLength: nat)

  /** The truthiness of a `FileStorage`: a part with an empty filename is no file. */
  predicate HasFile(file: Option<Upload>) {
    file.Some? && file.value.filename != ""
  }

  const MAX_UPLOAD_BYTES: nat := 5 * 1024 * 1024

  /** `FileAllowed(['pdf', 'docx', 'jpg', 'jpeg'])`: the lower-cased name ends in one
      of the extensions; no file passes. */
  predicate FileAllowed(file: Option<Upload>) {
    var name := if HasFile(file) then LowerAll(file.value.filename) else "";
    !HasFile(file)
    || EndsWith(name, ".pdf") || EndsWith(name, ".docx")
    || EndsWith(name, ".jpg") || EndsWith(name, ".jpeg")
  }

  /** A name ending in an allowed extension passes, whatever the case of the
      extension's letters. */
  lemma FileAllowedByExtension(stem: string, ext: string, n: nat)
    requires LowerAll(ext) in {".pdf", ".docx", ".jpg", ".jpeg"}
    ensures FileAllowed(Some(Upload(stem + ext, n)))
  {
    LowerAllAppend(stem, ext);
    var l := LowerAll(stem + ext);
    assert l[|l| - |ext|..] == LowerAll(ext);
  }

  /** A name without a dot has no extension and is refused. */
  lemma FileWithoutDotRefused(name: string, n: nat)
    requires name != "" && '.' !in name
    ensures !FileAllowed(Some(Upload(name, n)))
  {
    var l := LowerAll(name);
    forall k | 0 <= k < |l|
      ensures l[k] != '.'
    {
      assert name[k] != '.';
    }
    if |l| >= 4 { assert l[|l| - 4..][0] == l[|l| - 4]; }
    if |l| >= 5 { assert l[|l| - 5..][0] == l[|l| - 5]; }
  }

  /** An upper-case extension passes: `report.PDF`. */
  lemma UpperCaseExtensionAllowed(n: nat)
    ensures FileAllowed(Some(Upload("report.PDF", n)))
  {
    assert LowerAll(".PDF") == ".pdf";
    assert "report.PDF" == "report" + ".PDF";
    FileAllowedByExtension("report", ".PDF", n);
  }

  /** Only the last extension counts: `x.pdf.exe` is refused. */
  lemma InnerExtensionIgnored(n: nat)
    ensures !FileAllowed(Some(Upload("x.pdf.exe", n)))
  {
    var l := LowerAll("x.pdf.exe");
    assert l == "x.pdf.exe";
  }

  /** `validate_file_surat`: a present file may not declare more than 5 MiB. */
  predicate FileSizeValid(file: Option<Upload>) {
    !HasFile(file) || file.value.contentLength <= MAX_UPLOAD_BYTES
  }

  /** The size limit is inclusive, and a missing file is never too large. */
  lemma FileSizeBoundary(name: string)
    requires name != ""
    ensures FileSizeValid(None)
    ensures FileSizeValid(Some(Upload(name, 5 * 1024 * 1024)))
    ensures !FileSizeValid(Some(Upload(name, 5 * 1024 * 1024 + 1)))
  {
  }

  /** `SuratMasukForm`; the date is the submitted text of the `DateField`. */
  datatype SuratMasukForm = SuratMasukForm(
    nomorSurat: string, asalSurat: string, tanggalTerima: string, perihal: string,
    fileSurat: Option<Upload>)

  /** `SuratKeluarForm`. */
  datatype SuratKeluarForm = SuratKeluarForm(
    nomorSurat: string, tujuanSurat: string, tanggalSurat: string, perihal: string,
    fileSurat: Option<Upload>)

  /** Every validator of `SuratMasukForm` passes; the `DateField` accepts its text
      exactly when `'%Y-%m-%d'` parses it. */
  predicate SuratMasukFormValid(f: SuratMasukForm) {
    && DataRequired(f.nomorSurat) && |f.nomorSurat| <= 100
    && DataRequired(f.asalSurat) && |f.asalSurat| <= 100
    && ParseIsoDate(f.tanggalTerima).Some?
    && DataRequired(f.perihal)
    && FileAllowed(f.fileSurat) && FileSizeValid(f.fileSurat)
  }

  /** Every validator of `SuratKeluarForm` passes. */
  predicate SuratKeluarFormValid(f: SuratKeluarForm) {
    && DataRequired(f.nomorSurat) && |f.nomorSurat| <= 100
    && DataRequired(f.tujuanSurat) && |f.tujuanSurat| <= 100
    && ParseIsoDate(f.tanggalSurat).Some?
    && DataRequired(f.perihal)
    && FileAllowed(f.fileSurat) && FileSizeValid(f.fileSurat)
  }

  /** A valid letter form fits the `String(100)` columns, carries a real calendar
      date, and any file in it declares at most 5 MiB. */
  lemma SuratKeluarFormFitsColumns(f: SuratKeluarForm)
    requires SuratKeluarFormValid(f)
    ensures |f.nomorSurat| <= 100 && |f.tujuanSurat| <= 100
    ensures ValidDate(ParseIsoDate(f.tanggalSurat).value)
    ensures HasFile(f.fileSurat) ==> f.fileSurat.value.contentLength <= 5 * 1024 * 1024
  {
  }

  lemma SuratMasukFormFitsColumns(f: SuratMasukForm)
    requires SuratMasukFormValid(f)
    ensures |f.nomorSurat| <= 100 && |f.asalSurat| <= 100
    ensures ValidDate(ParseIsoDate(f.tanggalTerima).value)
    ensures HasFile(f.fileSurat) ==> f.fileSurat.value.contentLength <= 5 * 1024 * 1024
  {
  }
}
