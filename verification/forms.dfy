/**
 * The checks the account forms share: the password pair (sign-up and the
 * password reset) and the name and career (sign-up and the profile form),
 * each reporting only its first failure.
 */
module Forms {
  import opened Common

  const MsgPasswordsDiffer := "Las contraseñas no coinciden"
  const MsgPasswordTooShort := "La contraseña debe tener al menos 6 caracteres"
  const MsgNameRequired := "El nombre completo es requerido"
  const MsgCareerRequired := "Por favor selecciona una carrera"
  const MinPasswordLength := 6

  /** `s.length`: UTF-16 code units, two for a character outside the Basic Multilingual Plane. */
  function Utf16Length(s: string): (r: nat)
    ensures r >= |s|
    ensures r <= 2 * |s|
    decreases |s|
  {
    if s == [] then 0 else (if s[0] as int >= 0x1_0000 then 2 else 1) + Utf16Length(s[1..])
  }

  /** Three characters outside the Basic Multilingual Plane already reach the minimum length. */
  lemma AstralCharactersCountTwice()
    ensures Utf16Length("\U{1F600}\U{1F600}\U{1F600}") == MinPasswordLength
  {
  }

  /** The password pair: a mismatch is reported before a short password. */
  function CheckPasswords(password: string, repeat: string): (r: Option<string>)
    ensures r.None? <==> password == repeat && Utf16Length(password) >= MinPasswordLength
    ensures password != repeat ==> r == Some(MsgPasswordsDiffer)
    ensures password == repeat && Utf16Length(password) < MinPasswordLength ==> r == Some(MsgPasswordTooShort)
  {
    if password != repeat then Some(MsgPasswordsDiffer)
    else if Utf16Length(password) < MinPasswordLength then Some(MsgPasswordTooShort)
    else None
  }

  /** The name and career: a blank name is reported before an empty career. */
  function CheckIdentity(fullName: string, career: string): (r: Option<string>)
    ensures r.None? <==> !IsBlank(fullName) && career != ""
    ensures IsBlank(fullName) ==> r == Some(MsgNameRequired)
    ensures !IsBlank(fullName) && career == "" ==> r == Some(MsgCareerRequired)
  {
    if IsBlank(fullName) then Some(MsgNameRequired)
    else if career == "" then Some(MsgCareerRequired)
    else None
  }

  /** A name that passes the check has a character that is not white space. */
  lemma AcceptedNameHasText(fullName: string, career: string)
    requires CheckIdentity(fullName, career).None?
    ensures exists i :: 0 <= i < |fullName| && !IsSpace(fullName[i])
    ensures fullName != ""
  {
    BlankIffAllSpace(fullName);
  }
}
