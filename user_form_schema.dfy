/**
  `createUserFormSchema`: the object schema of the user form (name, email,
  password) and what the form's resolver makes of it on submission. Every
  field is checked, its checks run in the order they are declared, the first
  failing check's message is the one shown for the field, and the data is
  produced only when every field passes. The email syntax check of the
  validation library is not visible: it is the parameter `isEmail`.
 */
module UserFormSchema {
  import opened JsString
  import opened NameTransform

  const NameRequired: string := "Nome obrigatório"
  const EmailRequired: string := "O email é obrigatório"
  const EmailInvalid: string := "Formato de email inválido"
  const PasswordTooShort: string := "A senha precisa ter no mínimo 6 caracteres"
  const PasswordMinLength: nat := 6

  datatype Field = Name | Email | Password

  const AllFields: set<Field> := {Name, Email, Password}

  /** The raw strings of the three inputs at submission. */
  datatype FormInput = FormInput(name: string, email: string, password: string)

  /** The normalised data handed to the submit handler. */
  datatype FormData = FormData(name: string, email: string, password: string)

  /** What the schema makes of one field: its output value, the messages of its failed checks in
      declaration order, or an exception thrown by its transform. */
  datatype FieldResult = Accepted(value: string) | Rejected(issues: seq<string>) | Threw

  /** A submission: the data, the message shown under each failing field, or an exception that
      escapes validation altogether. */
  datatype Outcome = Valid(data: FormData) | Invalid(errors: map<Field, string>) | Crash

  /** `z.string().nonempty(NameRequired).transform(capitalize)`: the transform runs only on a name
      that passed the check. */
  function ParseName(name: string): (r: FieldResult)
    ensures r.Rejected? <==> name == []
    ensures r.Rejected? ==> r.issues == [NameRequired]
    ensures r.Threw? <==> name != [] && "" in Split(Trim(name), ' ')
    ensures r.Accepted? ==> r.value == CapitalizeInitials(Trim(name))
  {
    if Utf16Length(name) < 1 then Rejected([NameRequired])
    else
      match CapitalizeName(name)
      case Throw => Threw
      case Normal(v) => Accepted(v)
  }

  /** `z.string().nonempty(EmailRequired).email(EmailInvalid).toLowerCase()`: both checks run, so an
      empty email that also fails the syntax check has two issues, the required one first. */
  function ParseEmail(email: string, isEmail: string -> bool): (r: FieldResult)
    ensures !r.Threw?
    ensures r.Accepted? <==> email != [] && isEmail(email)
    ensures r.Accepted? ==> r.value == ToLowerCase(email)
    ensures r.Rejected? ==> r.issues != [] && r.issues[0] == (if email == [] then EmailRequired else EmailInvalid)
    ensures r.Rejected? ==> (EmailInvalid in r.issues <==> !isEmail(email))
  {
    var issues := (if Utf16Length(email) < 1 then [EmailRequired] else [])
      + (if isEmail(email) then [] else [EmailInvalid]);
    if issues == [] then Accepted(ToLowerCase(email)) else Rejected(issues)
  }

  /** `z.string().min(PasswordMinLength, PasswordTooShort)`, measured in UTF-16 code units. */
  function ParsePassword(password: string): (r: FieldResult)
    ensures !r.Threw?
    ensures r.Accepted? <==> Utf16Length(password) >= PasswordMinLength
    ensures r.Accepted? ==> r.value == password
    ensures r.Rejected? ==> r.issues == [PasswordTooShort]
  {
    if Utf16Length(password) < PasswordMinLength then Rejected([PasswordTooShort]) else Accepted(password)
  }

  function ParseField(input: FormInput, f: Field, isEmail: string -> bool): (r: FieldResult)
    ensures r.Rejected? ==> r.issues != []
  {
    match f
    case Name => ParseName(input.name)
    case Email => ParseEmail(input.email, isEmail)
    case Password => ParsePassword(input.password)
  }

  /** Reference definition of a failing field, stated on the raw input alone. */
  predicate Fails(input: FormInput, f: Field, isEmail: string -> bool) {
    match f
    case Name => input.name == []
    case Email => input.email == [] || !isEmail(input.email)
    case Password => Utf16Length(input.password) < PasswordMinLength
  }

  function FailingFields(input: FormInput, isEmail: string -> bool): set<Field> {
    set f | f in AllFields && Fails(input, f, isEmail)
  }

  /** Reference definition of the message shown under a failing field: that of its first check. */
  function Message(input: FormInput, f: Field): string {
    match f
    case Name => NameRequired
    case Email => if input.email == [] then EmailRequired else EmailInvalid
    case Password => PasswordTooShort
  }

  /** The error map: the first issue of each rejected field, and nothing for the others. Its keys
      are exactly the failing fields, and each entry is the field's reference message. */
  function Errors(input: FormInput, isEmail: string -> bool): (r: map<Field, string>)
    ensures r.Keys == FailingFields(input, isEmail)
    ensures forall f :: f in r ==> r[f] == Message(input, f)
  {
    map f | f in AllFields && ParseField(input, f, isEmail).Rejected? :: ParseField(input, f, isEmail).issues[0]
  }

  /** Parsing a submission with the schema. A name whose transform throws aborts the whole parse,
      whatever the other fields hold. */
  function Validate(input: FormInput, isEmail: string -> bool): (o: Outcome)
    ensures o.Crash? <==> input.name != [] && "" in Split(Trim(input.name), ' ')
    ensures o.Valid? <==> !o.Crash? && FailingFields(input, isEmail) == {}
    ensures o.Valid? ==>
      o.data == FormData(CapitalizeInitials(Trim(input.name)), ToLowerCase(input.email), input.password)
    ensures o.Invalid? ==> o.errors.Keys == FailingFields(input, isEmail) != {}
    ensures o.Invalid? ==> forall f :: f in o.errors ==> o.errors[f] == Message(input, f)
  {
    var name, email, password :=
      ParseName(input.name), ParseEmail(input.email, isEmail), ParsePassword(input.password);
    var errors := Errors(input, isEmail);
    if name.Threw? then Crash
    else if name.Accepted? && email.Accepted? && password.Accepted? then
      Valid(FormData(name.value, email.value, password.value))
    else
      assert Name in errors || Email in errors || Password in errors;
      Invalid(errors)
  }

  /** When the name does not crash and some field fails, the outcome is exactly the map from the
      failing fields to their messages. */
  lemma InvalidExactly(input: FormInput, isEmail: string -> bool, expected: map<Field, string>)
    requires input.name == [] || "" !in Split(Trim(input.name), ' ')
    requires expected.Keys == FailingFields(input, isEmail) != {}
    requires forall f :: f in expected ==> expected[f] == Message(input, f)
    ensures Validate(input, isEmail) == Invalid(expected)
  {
    var o := Validate(input, isEmail);
    assert o.Invalid? && o.errors.Keys == expected.Keys;
  }

  /** An empty name is rejected with its message, and the transform, which would throw on it,
      is not applied. */
  lemma EmptyNameRejected(input: FormInput, isEmail: string -> bool)
    requires input.name == []
    ensures Validate(input, isEmail).Invalid?
    ensures Validate(input, isEmail).errors[Name] == NameRequired
    ensures CapitalizeName(input.name).Throw?
  {
    assert Name in FailingFields(input, isEmail);
  }

  /** A field's entry in the error map depends on that field's raw value only: a field that is
      fixed on a later submission loses its entry, whatever the others hold. */
  lemma ErrorDependsOnOwnField(a: FormInput, b: FormInput, f: Field, isEmail: string -> bool)
    requires Validate(a, isEmail).Invalid? && Validate(b, isEmail).Invalid?
    requires f == Name ==> a.name == b.name
    requires f == Email ==> a.email == b.email
    requires f == Password ==> a.password == b.password
    ensures f in Validate(a, isEmail).errors <==> f in Validate(b, isEmail).errors
    ensures f in Validate(a, isEmail).errors ==> Validate(a, isEmail).errors[f] == Validate(b, isEmail).errors[f]
  {
    assert f in FailingFields(a, isEmail) <==> f in FailingFields(b, isEmail);
  }

  /** The accepted data keeps the invariants of the form: a trimmed name whose every word is
      non-empty and starts with no lower-case letter, an email without upper-case letters that
      passed the syntax check before lower-casing, and a password of at least six code units. */
  lemma ValidDataInvariant(input: FormInput, isEmail: string -> bool)
    requires Validate(input, isEmail).Valid?
    ensures var d := Validate(input, isEmail).data;
      && Trim(d.name) == d.name
      && WellSpaced(d.name)
      && (forall w :: w in Split(d.name, ' ') ==> w != [] && !IsAsciiLower(w[0]))
      && isEmail(input.email)
      && (forall i :: 0 <= i < |d.email| ==> !IsAsciiUpper(d.email[i]))
      && Utf16Length(d.password) >= PasswordMinLength
  {
    var d := Validate(input, isEmail).data;
    assert Email !in FailingFields(input, isEmail) && Password !in FailingFields(input, isEmail);
    var r := CapitalizeName(input.name);
    assert r.Normal? && d.name == r.value;
    assert Trim(d.name) == d.name && WellSpaced(d.name)
      && forall w :: w in Split(d.name, ' ') ==> w != [] && !IsAsciiLower(w[0])
    by {
      NameTransformOutput(input.name);
    }
  }

  /** Submitting the normalised data again gives the same data back, provided the email syntax
      check accepts the lower-cased email (it ignores case). */
  lemma RevalidateNormalised(input: FormInput, isEmail: string -> bool)
    requires Validate(input, isEmail).Valid?
    requires isEmail(ToLowerCase(input.email))
    ensures var d := Validate(input, isEmail).data;
      Validate(FormInput(d.name, d.email, d.password), isEmail) == Validate(input, isEmail)
  {
    var d := Validate(input, isEmail).data;
    var again := FormInput(d.name, d.email, d.password);
    assert Email !in FailingFields(input, isEmail) && Password !in FailingFields(input, isEmail);
    assert ParseName(d.name) == Accepted(d.name) by {
      NameTransformIdempotent(input.name);
    }
    assert ParseEmail(d.email, isEmail) == Accepted(d.email) by {
      LowerCaseIdempotent(input.email);
    }
    assert FailingFields(again, isEmail) == {};
  }

  /** A password of characters from the Basic Multilingual Plane passes exactly when it has at
      least six characters. */
  lemma PasswordOfBmpCharacters(password: string)
    requires forall i :: 0 <= i < |password| ==> (password[i] as int) < 0x1_0000
    ensures ParsePassword(password).Accepted? <==> |password| >= PasswordMinLength
  {
  }

  /** A non-empty name that is all white space passes the required check, then makes the
      transform throw, so the whole submission crashes. */
  lemma BlankNameCrashes(input: FormInput, isEmail: string -> bool)
    requires input.name != [] && AllWhiteSpace(input.name)
    ensures Validate(input, isEmail).Crash?
  {
    NameTransformThrows(input.name);
  }

  /** A name with two spaces in a row between its words makes the whole submission crash. */
  lemma DoubleSpacedNameCrashes(input: FormInput, isEmail: string -> bool, i: int)
    requires DoubleSpaceAt(Trim(input.name), i)
    ensures Validate(input, isEmail).Crash?
  {
    NameTransformThrows(input.name);
  }

  /** "joão silva ", an accepted email and "123456" give "João Silva", the lower-cased email and
      the password unchanged. */
  lemma AcceptedSubmission(input: FormInput, isEmail: string -> bool)
    requires input == FormInput("joão silva ", "JOAO@Example.COM", "123456")
    requires isEmail(input.email)
    ensures Validate(input, isEmail) == Valid(FormData("João Silva", "joao@example.com", "123456"))
  {
    SampleNameCapitalized(input.name);
    SampleEmailLowerCased(input.email);
    assert Utf16Length(input.password) == 6;
    assert FailingFields(input, isEmail) == {};
  }

  /** An empty name with an accepted email and password: only the name has an error. */
  lemma EmptyNameOnlyError(input: FormInput, isEmail: string -> bool)
    requires input == FormInput("", "x@y.com", "123456")
    requires isEmail(input.email)
    ensures Validate(input, isEmail) == Invalid(map[Name := NameRequired])
  {
    assert Utf16Length(input.password) == 6;
    assert FailingFields(input, isEmail) == {Name};
    InvalidExactly(input, isEmail, map[Name := NameRequired]);
  }

  /** "Ana" with a malformed email and a five-character password: errors for the email and the
      password, none for the name. */
  lemma EmailAndPasswordErrors(input: FormInput, isEmail: string -> bool)
    requires input == FormInput("Ana", "not-an-email", "12345")
    requires !isEmail(input.email)
    ensures Validate(input, isEmail) == Invalid(map[Email := EmailInvalid, Password := PasswordTooShort])
  {
    SampleNameWellFormed(input.name);
    assert Utf16Length(input.password) == 5;
    assert FailingFields(input, isEmail) == {Email, Password};
    InvalidExactly(input, isEmail, map[Email := EmailInvalid, Password := PasswordTooShort]);
  }

  /** The same submission with the email fixed: the email error is gone and only the password's
      remains. */
  lemma OnlyPasswordErrorAfterFix(input: FormInput, isEmail: string -> bool)
    requires input == FormInput("Ana", "ana@example.com", "12345")
    requires isEmail(input.email)
    ensures Validate(input, isEmail) == Invalid(map[Password := PasswordTooShort])
  {
    SampleNameWellFormed(input.name);
    assert Utf16Length(input.password) == 5;
    assert FailingFields(input, isEmail) == {Password};
    InvalidExactly(input, isEmail, map[Password := PasswordTooShort]);
  }

  lemma SampleNameCapitalized(name: string)
    requires name == "joão silva "
    ensures Trim(name) == "joão silva"
    ensures "" !in Split(Trim(name), ' ')
    ensures CapitalizeInitials(Trim(name)) == "João Silva"
  {
    var t := "joão silva";
    assert name == t + [' '];
    TrimTrailing(t, ' ');
    SampleWordsCapitalized(t);
  }

  lemma SampleWordsCapitalized(t: string)
    requires t == "joão silva"
    ensures "" !in Split(t, ' ')
    ensures CapitalizeInitials(t) == "João Silva"
  {
    var first, last := "joão", "silva";
    assert t == first + [' '] + last;
    WellSpacedHasNoEmptyWord(t);
    CapitalizeInitialsAtSpace(first, last);
    CapitalizeInitialsOfWord(first);
    CapitalizeInitialsOfWord(last);
    assert [ToUpperChar('j')] + first[1..] == "João";
    assert [ToUpperChar('s')] + last[1..] == "Silva";
  }

  lemma SampleEmailLowerCased(email: string)
    requires email == "JOAO@Example.COM"
    ensures ToLowerCase(email) == "joao@example.com"
  {
    var lower := ToLowerCase(email);
    forall i | 0 <= i < |lower| ensures lower[i] == "joao@example.com"[i] {
    }
  }

  lemma SampleNameWellFormed(name: string)
    requires name == "Ana"
    ensures Trim(name) == name
    ensures "" !in Split(name, ' ')
  {
    TrimOfTrimmed(name);
    SplitWithoutSeparator(name, ' ');
  }
}
