/** The two pure helpers of the DEP admin pages: unwrapping the decrypted
    server-token message, and turning the profile form into the profile
    dictionary. */
module Dep {
  import opened MdmTypes

  // ---------------------------------------------------------------------
  // Server-token envelope
  // ---------------------------------------------------------------------

  const Header: string := "-----BEGIN MESSAGE-----\n"
  const Footer: string := "\n-----END MESSAGE-----\n"

  predicate StartsWith(s: string, prefix: string) {
    |prefix| <= |s| && s[..|prefix|] == prefix
  }

  predicate EndsWith(s: string, suffix: string) {
    |suffix| <= |s| && s[|s| - |suffix|..] == suffix
  }

  /** Python's `s[start:-fromEnd]` for `fromEnd > 0`: both bounds are
      clamped to the string, and crossed bounds give the empty string. */
  function PySlice(s: string, start: nat, fromEnd: nat): string {
    var lo := if start <= |s| then start else |s|;
    var hi := if fromEnd <= |s| then |s| - fromEnd else 0;
    if lo < hi then s[lo..hi] else []
  }

  /** The payload `eml[24:-23]` when the message starts with the header and
      ends with the footer; `None` where the source leaves `myjson` unset. */
  function StripEnvelope(eml: string): Option<string> {
    if StartsWith(eml, Header) && EndsWith(eml, Footer) then Some(PySlice(eml, 24, 23)) else None
  }

  /** The slice bounds are exactly the marker lengths. */
  lemma MarkerLengths()
    ensures |Header| == 24 && |Footer| == 23
  {
  }

  /** Unwrapping a wrapped body gives the body back. */
  lemma StripWrapped(body: string)
    ensures StripEnvelope(Header + body + Footer) == Some(body)
  {
    var eml := Header + body + Footer;
    assert eml[..|Header|] == Header;
    assert eml[|eml| - |Footer|..] == Footer;
    assert eml[24..|eml| - 23] == body;
  }

  /** A payload comes out exactly when the message is header, payload and
      footer, or when it is the 46-character message in which the two markers
      share their newline, whose payload is empty. */
  lemma StripExact(eml: string, body: string)
    ensures StripEnvelope(eml) == Some(body) <==>
      (eml == Header + body + Footer || (eml == Header + Footer[1..] && body == []))
  {
    if StripEnvelope(eml) == Some(body) {
      if |eml| >= 47 {
        assert eml == eml[..24] + eml[24..|eml| - 23] + eml[|eml| - 23..];
      } else {
        var p := |eml| - 23;
        assert eml[p] == Footer[0] == '\n';
        assert forall i :: 0 <= i < 23 ==> Header[i] != '\n';
        assert p == 23;
        assert eml == eml[..24] + eml[24..];
        assert eml[24..] == Footer[1..];
      }
    }
    if eml == Header + body + Footer {
      StripWrapped(body);
    }
    if eml == Header + Footer[1..] && body == [] {
      assert eml[..|Header|] == Header;
      assert eml[|eml| - |Footer|..] == Footer;
    }
  }

  // ---------------------------------------------------------------------
  // DEP profile form
  // ---------------------------------------------------------------------

  /** A submitted form: each field name with the values submitted for it,
      in order. A name is present when it has at least one value. */
  type Form = map<string, seq<string>>

  predicate Has(form: Form, name: string) {
    name in form && form[name] != []
  }

  /** `request.form.get(name)`: the first submitted value. */
  function First(form: Form, name: string): string
    requires Has(form, name)
  {
    form[name][0]
  }

  /** A value of the profile dictionary. */
  datatype ProfileValue = Flag(b: bool) | Text(s: string) | TextList(items: seq<string>)

  datatype ProfileError = MissingProfileName

  const BoolFields: seq<string> :=
    ["allow_pairing", "is_supervised", "is_multi_user", "is_mandatory", "await_device_configured", "is_mdm_removable"]
  const StrFields: seq<string> :=
    ["profile_name", "support_phone_number", "support_email_address", "department", "org_magic"]
  const SkipSetupItems: string := "skip_setup_items"

  /** No field is in both lists, and `skip_setup_items` is in neither. */
  lemma FieldListsDisjoint()
    ensures forall k :: k in StrFields ==> k !in BoolFields
    ensures SkipSetupItems !in BoolFields && SkipSetupItems !in StrFields
  {
  }

  /** The loop over the boolean fields. */
  method CopyFlags(form: Form) returns (profile: map<string, ProfileValue>)
    ensures forall k :: k in profile ==> k in BoolFields
    ensures forall k :: k in BoolFields ==>
      (k in profile <==> Has(form, k)) && (Has(form, k) ==> profile[k] == Flag(First(form, k) != ""))
  {
    profile := map[];
    for i := 0 to |BoolFields|
      invariant forall k :: k in profile ==> k in BoolFields[..i]
      invariant forall k :: k in BoolFields[..i] ==>
        (k in profile <==> Has(form, k)) && (Has(form, k) ==> profile[k] == Flag(First(form, k) != ""))
    {
      var name := BoolFields[i];
      assert BoolFields[..i + 1] == BoolFields[..i] + [name];
      if Has(form, name) {
        profile := profile[name := Flag(First(form, name) != "")];
      }
    }
    assert BoolFields[..|BoolFields|] == BoolFields;
  }

  /** The loop over the string fields: a field is added only when its first
      value is non-empty; entries already present for other names stay. */
  method CopyTexts(form: Form, profile: map<string, ProfileValue>) returns (out: map<string, ProfileValue>)
    requires forall k :: k in profile ==> k !in StrFields
    ensures forall k :: k in out <==> k in profile || (k in StrFields && Has(form, k) && First(form, k) != "")
    ensures forall k :: k in profile ==> out[k] == profile[k]
    ensures forall k :: k in StrFields && k in out ==> out[k] == Text(First(form, k))
  {
    out := profile;
    for i := 0 to |StrFields|
      invariant forall k :: k in out <==> k in profile || (k in StrFields[..i] && Has(form, k) && First(form, k) != "")
      invariant forall k :: k in profile ==> out[k] == profile[k]
      invariant forall k :: k in StrFields[..i] && k in out ==> out[k] == Text(First(form, k))
    {
      var name := StrFields[i];
      assert StrFields[..i + 1] == StrFields[..i] + [name];
      if Has(form, name) && First(form, name) != "" {
        out := out[name := Text(First(form, name))];
      }
    }
    assert StrFields[..|StrFields|] == StrFields;
  }

  /** The dictionary `dep_profile_add` builds from the form before it reads
      the DEP and MDM configurations. A present boolean field becomes `bool`
      of its first value (true for any non-empty text); a string field is
      copied only when its first value is non-empty; `skip_setup_items`
      keeps every submitted value; nothing else is added. Without a non-empty
      `profile_name` the handler fails. */
  method DepProfileFromForm(form: Form) returns (r: Result<map<string, ProfileValue>, ProfileError>)
    ensures r.Err? <==> !(Has(form, "profile_name") && First(form, "profile_name") != "")
    ensures r.Err? ==> r.error == MissingProfileName
    ensures r.Ok? ==>
      && (forall k :: k in r.value ==> k in BoolFields || k in StrFields || k == SkipSetupItems)
      && (forall k :: k in BoolFields ==>
            (k in r.value <==> Has(form, k)) && (Has(form, k) ==> r.value[k] == Flag(First(form, k) != "")))
      && (forall k :: k in StrFields ==>
            (k in r.value <==> Has(form, k) && First(form, k) != "")
            && (k in r.value ==> r.value[k] == Text(First(form, k))))
      && (SkipSetupItems in r.value <==> Has(form, SkipSetupItems))
      && (Has(form, SkipSetupItems) ==> r.value[SkipSetupItems] == TextList(form[SkipSetupItems]))
  {
    FieldListsDisjoint();
    var profile := CopyFlags(form);
    profile := CopyTexts(form, profile);
    if "profile_name" !in profile {
      return Err(MissingProfileName);
    }
    if Has(form, SkipSetupItems) {
      profile := profile[SkipSetupItems := TextList(form[SkipSetupItems])];
    }
    return Ok(profile);
  }
}
