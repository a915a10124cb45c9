/** `MyUserCreationForm.clean` of quad/users/forms.py: the signup check.

    The user table and the CollegeEmail table are passed in: the e-mail
    addresses already registered (unique per user) and the map from an e-mail
    domain to its college (one CollegeEmail row per domain). */
module Signup {
  import opened Results
  import opened Text

  /** Primary key of a college. */
  type CollegeId = nat

  /** `cleaned_data`: the form's validated fields by name. */
  type CleanedData = map<string, string>

  datatype SignupError =
    | MissingEmail        // `cleaned_data['email']` raises KeyError
    | DuplicateEmail      // ValidationError('A user with this email already exists')
    | NoDomain            // no '@': the second split field is missing, an IndexError
    | UnknownDomain       // ValidationError('This email is not associated with any colleges.')

  /** The text shown for the two validation errors; the other two are uncaught exceptions. */
  function ValidationMessage(e: SignupError): Option<string>
  {
    match e
    case DuplicateEmail => Some("A user with this email already exists")
    case UnknownDomain => Some("This email is not associated with any colleges.")
    case _ => None
  }

  /** On success: the unchanged `cleaned_data` and the college stored on the form. */
  datatype Cleaned = Cleaned(data: CleanedData, college: CollegeId)

  /** The second field of the address split on '@': the text between the first and second '@'. */
  function Domain(email: string): (r: Option<string>)
    ensures r.Some? <==> '@' in email
    ensures r.Some? ==> '@' !in r.value
  {
    var parts := Split(email, '@');
    if |parts| >= 2 then Some(parts[1])
    else
      assert email == Join(parts, '@') == parts[0];
      None
  }

  /** `clean()`: duplicate check first, then domain extraction, then the college lookup. */
  function Clean(data: CleanedData, users: set<string>, colleges: map<string, CollegeId>): (r: Result<Cleaned, SignupError>)
    ensures r == Err(MissingEmail) <==> "email" !in data
    ensures r == Err(DuplicateEmail) <==> "email" in data && data["email"] in users
    ensures r == Err(NoDomain) <==> "email" in data && data["email"] !in users && '@' !in data["email"]
    ensures r == Err(UnknownDomain) <==> && "email" in data
                                         && data["email"] !in users
                                         && Domain(data["email"]).Some?
                                         && Domain(data["email"]).value !in colleges
    ensures r.Ok? ==> && "email" in data
                      && data["email"] !in users
                      && Domain(data["email"]).Some?
                      && Domain(data["email"]).value in colleges
                      && r.value.college == colleges[Domain(data["email"]).value]
                      && r.value.data == data
  {
    if "email" !in data then Err(MissingEmail)
    else
      var email := data["email"];
      if email in users then Err(DuplicateEmail)
      else
        match Domain(email)
        case None => Err(NoDomain)
        case Some(domain) =>
          if domain in colleges then Ok(Cleaned(data, colleges[domain]))
          else Err(UnknownDomain)
  }

  // ------------------------------------------------------------ properties

  /** The domain of `local@domain` is `domain`, for an address with a single '@'. */
  lemma DomainOfAddress(local: string, domain: string)
    requires '@' !in local && '@' !in domain
    ensures Domain(local + "@" + domain) == Some(domain)
  {
    SplitAtFirstSeparator(local, domain, '@');
    SplitWithoutSeparator(domain, '@');
    assert local + ['@'] + domain == local + "@" + domain;
  }

  /** With extra '@'s, only the text between the first and the second counts. */
  lemma DomainStopsAtSecondAt(local: string, domain: string, rest: string)
    requires '@' !in local && '@' !in domain
    ensures Domain(local + "@" + domain + "@" + rest) == Some(domain)
  {
    var email := local + "@" + domain + "@" + rest;
    SplitAtFirstSeparator(local, domain + "@" + rest, '@');
    SplitAtFirstSeparator(domain, rest, '@');
    assert local + ['@'] + (domain + "@" + rest) == email;
    assert domain + ['@'] + rest == domain + "@" + rest;
  }

  /** The outcome, stated as a decision table over the inputs: exactly one
      of the four errors or success, in the order the checks run, with the
      text the form shows for each of the two validation errors. */
  lemma CleanDecision(data: CleanedData, users: set<string>, colleges: map<string, CollegeId>)
    ensures var r := Clean(data, users, colleges);
      && ("email" !in data ==> r == Err(MissingEmail) && ValidationMessage(r.error) == None)
      && ("email" in data && data["email"] in users ==>
            && r == Err(DuplicateEmail)
            && ValidationMessage(r.error) == Some("A user with this email already exists"))
      && ("email" in data && data["email"] !in users && '@' !in data["email"] ==>
            r == Err(NoDomain) && ValidationMessage(r.error) == None)
      && ("email" in data && data["email"] !in users && '@' in data["email"] ==>
            if Domain(data["email"]).value in colleges then
              r == Ok(Cleaned(data, colleges[Domain(data["email"]).value]))
            else
              && r == Err(UnknownDomain)
              && ValidationMessage(r.error) == Some("This email is not associated with any colleges."))
  {
  }

  /** A registered address is refused as a duplicate even when its domain belongs to no college. */
  lemma DuplicateReportedBeforeDomain(local: string, domain: string, users: set<string>, colleges: map<string, CollegeId>)
    requires '@' !in local && '@' !in domain
    requires local + "@" + domain in users
    requires domain !in colleges
    ensures Clean(map["email" := local + "@" + domain], users, colleges) == Err(DuplicateEmail)
  {
  }

  /** A new address at a known college domain signs up at that college, with its data unchanged. */
  lemma NewAddressAtKnownDomain(data: CleanedData, local: string, domain: string,
                                users: set<string>, colleges: map<string, CollegeId>)
    requires '@' !in local && '@' !in domain
    requires "email" in data && data["email"] == local + "@" + domain
    requires data["email"] !in users
    requires domain in colleges
    ensures Clean(data, users, colleges) == Ok(Cleaned(data, colleges[domain]))
  {
    DomainOfAddress(local, domain);
  }
}
