/**
 * The four submission forms of the café directory and what makes each of
 * them pass validation. Every field is the submitted text; a form is valid
 * when each `DataRequired` field holds more than whitespace and each select
 * field holds one of its declared choices.
 */
module Forms {

  /** The characters Python's `str.isspace()` accepts, i.e. those `str.strip()` removes. */
  predicate IsSpace(c: char)
  {
    || c == ' '
    || ('\t' <= c <= '\r')
    || ('\U{1C}' <= c <= '\U{1F}')
    || c == '\U{85}'
    || c == '\U{A0}'
    || c == '\U{1680}'
    || ('\U{2000}' <= c <= '\U{200A}')
    || c == '\U{2028}'
    || c == '\U{2029}'
    || c == '\U{202F}'
    || c == '\U{205F}'
    || c == '\U{3000}'
  }

  /** `s` holds at least one character that is not whitespace. */
  predicate HasContent(s: string)
  {
    exists i :: 0 <= i < |s| && !IsSpace(s[i])
  }

  /** Leading whitespace removed: the result is a suffix of `s` and everything cut off was whitespace. */
  function TrimStart(s: string): (r: string)
    ensures |r| <= |s| && r == s[|s| - |r|..]
    ensures r == [] || !IsSpace(r[0])
    ensures forall i :: 0 <= i < |s| - |r| ==> IsSpace(s[i])
    decreases |s|
  {
    if |s| > 0 && IsSpace(s[0]) then TrimStart(s[1..]) else s
  }

  /** Trailing whitespace removed: the result is a prefix of `s` and everything cut off was whitespace. */
  function TrimEnd(s: string): (r: string)
    ensures |r| <= |s| && r == s[..|r|]
    ensures r == [] || !IsSpace(r[|r| - 1])
    ensures forall i :: |r| <= i < |s| ==> IsSpace(s[i])
    decreases |s|
  {
    if |s| > 0 && IsSpace(s[|s| - 1]) then TrimEnd(s[..|s| - 1]) else s
  }

  /** Python's `str.strip()` with no argument. */
  function Strip(s: string): string
  {
    TrimEnd(TrimStart(s))
  }

  /**
   * The `DataRequired` validator: the field holds a character that is not
   * whitespace. `DataRequiredIsStripTest` shows this is exactly the
   * validator's own test, which rejects data that is empty or strips to
   * the empty string.
   */
  predicate DataRequired(s: string)
  {
    HasContent(s)
  }

  /** The test `DataRequired` applies to text: the data is empty, or `str.strip()` leaves nothing. */
  predicate BlankAsWritten(s: string)
  {
    s == [] || Strip(s) == []
  }

  /** `str.strip()` yields the empty string exactly when every character is whitespace. */
  lemma StripBlank(s: string)
    ensures Strip(s) == [] <==> !HasContent(s)
  {
    var t := TrimStart(s);
    if t != [] {
      assert t[0] == s[|s| - |t|];
    }
  }

  /** A field passes `DataRequired` exactly when it is not blank by the validator's own test. */
  lemma DataRequiredIsStripTest(s: string)
    ensures DataRequired(s) <==> !BlankAsWritten(s)
  {
    StripBlank(s);
  }

  /** A `SelectField` with `DataRequired`: the value is non-blank and one of the declared choices. */
  predicate SelectChoice(s: string, choices: set<string>)
  {
    DataRequired(s) && s in choices
  }

  /** Choices of the wifi, toilet, sockets and calls selects. */
  const YesNo: set<string> := {"Yes", "No"}

  /** Choices of the seats select: five buckets, and no "40-50" among them. */
  const SeatBuckets: set<string> := {"0-10", "10-20", "20-30", "30-40", "50+"}

  datatype RegisterForm = RegisterForm(email: string, password: string, name: string, city: string)

  datatype LoginForm = LoginForm(email: string, password: string)

  datatype CafeForm = CafeForm(
    name: string,
    mapUrl: string,
    imgUrl: string,
    location: string,
    wifi: string,
    toilet: string,
    sockets: string,
    seats: string,
    calls: string,
    price: string)

  datatype ReviewForm = ReviewForm(reviewText: string)

  predicate ValidRegisterForm(f: RegisterForm)
  {
    DataRequired(f.email) && DataRequired(f.password) && DataRequired(f.name) && DataRequired(f.city)
  }

  predicate ValidLoginForm(f: LoginForm)
  {
    DataRequired(f.email) && DataRequired(f.password)
  }

  predicate ValidCafeForm(f: CafeForm)
  {
    && DataRequired(f.name)
    && DataRequired(f.mapUrl)
    && DataRequired(f.imgUrl)
    && DataRequired(f.location)
    && SelectChoice(f.wifi, YesNo)
    && SelectChoice(f.toilet, YesNo)
    && SelectChoice(f.sockets, YesNo)
    && SelectChoice(f.seats, SeatBuckets)
    && SelectChoice(f.calls, YesNo)
    && DataRequired(f.price)
  }

  predicate ValidReviewForm(f: ReviewForm)
  {
    DataRequired(f.reviewText)
  }

  /** Every declared choice is itself non-blank, so a select accepts exactly its choices. */
  lemma SelectChoiceIsMembership(s: string)
    ensures SelectChoice(s, YesNo) <==> s in YesNo
    ensures SelectChoice(s, SeatBuckets) <==> s in SeatBuckets
  {
    if s in YesNo || s in SeatBuckets {
      assert !IsSpace(s[0]);
    }
  }

  /** A registration passes exactly when none of email, password, name and city is blank. */
  lemma RegisterFormRequiresAll(f: RegisterForm)
    ensures ValidRegisterForm(f) <==>
      !BlankAsWritten(f.email) && !BlankAsWritten(f.password) && !BlankAsWritten(f.name) && !BlankAsWritten(f.city)
  {
    DataRequiredIsStripTest(f.email);
    DataRequiredIsStripTest(f.password);
    DataRequiredIsStripTest(f.name);
    DataRequiredIsStripTest(f.city);
  }

  /** A login passes exactly when neither email nor password is blank. */
  lemma LoginFormRequiresBoth(f: LoginForm)
    ensures ValidLoginForm(f) <==> !BlankAsWritten(f.email) && !BlankAsWritten(f.password)
  {
    DataRequiredIsStripTest(f.email);
    DataRequiredIsStripTest(f.password);
  }

  /** A review passes exactly when its text is not blank. */
  lemma ReviewFormRequiresText(f: ReviewForm)
    ensures ValidReviewForm(f) <==> !BlankAsWritten(f.reviewText)
  {
    DataRequiredIsStripTest(f.reviewText);
  }

  /**
   * A café form passes exactly when none of its five text fields is blank
   * and the five selects hold one of their choices.
   */
  lemma CafeFormShape(f: CafeForm)
    ensures ValidCafeForm(f) <==>
      && !BlankAsWritten(f.name) && !BlankAsWritten(f.mapUrl) && !BlankAsWritten(f.imgUrl)
      && !BlankAsWritten(f.location) && !BlankAsWritten(f.price)
      && SelectChoice(f.wifi, YesNo) && SelectChoice(f.toilet, YesNo)
      && SelectChoice(f.sockets, YesNo) && SelectChoice(f.calls, YesNo)
      && SelectChoice(f.seats, SeatBuckets)
  {
    DataRequiredIsStripTest(f.name);
    DataRequiredIsStripTest(f.mapUrl);
    DataRequiredIsStripTest(f.imgUrl);
    DataRequiredIsStripTest(f.location);
    DataRequiredIsStripTest(f.price);
  }

  /** The four amenity selects of a valid café form say "Yes" or "No", and seats is one of the five buckets. */
  lemma CafeFormChoices(f: CafeForm)
    requires ValidCafeForm(f)
    ensures f.wifi in YesNo && f.toilet in YesNo && f.sockets in YesNo && f.calls in YesNo
    ensures f.seats in SeatBuckets
  {
  }

  /** There is no "40-50" seats bucket: a form that chose it is rejected. */
  lemma NoFortyToFiftyBucket(f: CafeForm)
    requires f.seats == "40-50"
    ensures !ValidCafeForm(f)
  {
    FortyToFiftyNotAChoice(f.seats);
  }

  lemma FortyToFiftyNotAChoice(s: string)
    requires s == "40-50"
    ensures !SelectChoice(s, SeatBuckets)
  {
    assert s[0] == '4';
  }

  /**
   * The URL fields are not format-checked: any non-blank text is accepted
   * as map or image URL of an otherwise valid form.
   */
  lemma UrlsNotFormatChecked(f: CafeForm, mapUrl: string, imgUrl: string)
    requires ValidCafeForm(f)
    requires HasContent(mapUrl) && HasContent(imgUrl)
    ensures ValidCafeForm(f.(mapUrl := mapUrl, imgUrl := imgUrl))
  {
  }
}
