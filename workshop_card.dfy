/** The workshop card: what it shows for one workshop, decided from the workshop's
    metadata after defaults are filled in. The markup itself, the date and currency
    formatting and the instructor block are not part of this model; the card is
    described by the pieces of text, links and switches it renders. */
module WorkshopCard {
  import opened Wrappers
  import opened JsString
  import opened Types
  import Utils

  // ---------------------------------------------------------------------------
  // Defaults

  /** The metadata fields after destructuring, defaults filled in. */
  datatype Fields = Fields(
    workshopType: string,
    scheduledDate: Option<string>,
    durationMinutes: int,
    maxParticipants: int,
    price: real,
    currency: string,
    description: Option<string>,
    skillLevel: string,
    language: string,
    location: Option<Location>,
    thumbnail: Option<Image>,
    registrationStatus: string,
    culturalContext: Option<string>)

  /** Destructuring with defaults: a missing field takes its default, a present
      one is kept. */
  function WithDefaults(m: WorkshopMeta): (f: Fields)
    ensures m.workshopType.None? ==> f.workshopType == "virtual_online"
    ensures m.durationMinutes.None? ==> f.durationMinutes == 120
    ensures m.maxParticipants.None? ==> f.maxParticipants == 20
    ensures m.price.None? ==> f.price == 0.0
    ensures m.currency.None? ==> f.currency == "USD"
    ensures m.skillLevel.None? ==> f.skillLevel == "beginner"
    ensures m.language.None? ==> f.language == "English"
    ensures m.registrationStatus.None? ==> f.registrationStatus == "open_registration"
    ensures m.workshopType.Some? ==> f.workshopType == m.workshopType.value
    ensures m.durationMinutes.Some? ==> f.durationMinutes == m.durationMinutes.value
    ensures m.maxParticipants.Some? ==> f.maxParticipants == m.maxParticipants.value
    ensures m.price.Some? ==> f.price == m.price.value
    ensures m.currency.Some? ==> f.currency == m.currency.value
    ensures m.skillLevel.Some? ==> f.skillLevel == m.skillLevel.value
    ensures m.language.Some? ==> f.language == m.language.value
    ensures m.registrationStatus.Some? ==> f.registrationStatus == m.registrationStatus.value
    ensures f.scheduledDate == m.scheduledDate && f.description == m.description
    ensures f.location == m.location && f.thumbnail == m.thumbnail
    ensures f.culturalContext == m.culturalContext
  {
    Fields(
      m.workshopType.GetOr("virtual_online"),
      m.scheduledDate,
      m.durationMinutes.GetOr(120),
      m.maxParticipants.GetOr(20),
      m.price.GetOr(0.0),
      m.currency.GetOr("USD"),
      m.description,
      m.skillLevel.GetOr("beginner"),
      m.language.GetOr("English"),
      m.location,
      m.thumbnail,
      m.registrationStatus.GetOr("open_registration"),
      m.culturalContext)
  }

  // ---------------------------------------------------------------------------
  // Lookups

  datatype Icon = MapPin | Globe | Video | Award

  /** `getWorkshopTypeIcon(type)`; an unknown type gets the globe. */
  function TypeIcon(workshopType: string): (r: Icon)
    ensures ParseWorkshopType(workshopType).None? ==> r == Globe
  {
    match ParseWorkshopType(workshopType)
    case Some(LiveInPerson) => MapPin
    case Some(VirtualOnline) => Globe
    case Some(Hybrid) => Video
    case Some(RecordedCourse) => Award
    case None => Globe
  }

  /** `getWorkshopTypeLabel(type)`; an unknown type is labelled "Virtual". */
  function TypeLabel(workshopType: string): (r: string)
    ensures ParseWorkshopType(workshopType).None? ==> r == "Virtual"
  {
    match ParseWorkshopType(workshopType)
    case Some(LiveInPerson) => "In-Person"
    case Some(VirtualOnline) => "Virtual"
    case Some(Hybrid) => "Hybrid"
    case Some(RecordedCourse) => "Self-Paced"
    case None => "Virtual"
  }

  /** An unknown type is shown exactly as a virtual workshop; the four known types
      have four different labels and four different icons. */
  lemma TypeLookupsSeparateTheTypes(t: string, x: WorkshopType, y: WorkshopType)
    ensures ParseWorkshopType(t).None? ==>
              TypeLabel(t) == TypeLabel("virtual_online") && TypeIcon(t) == TypeIcon("virtual_online")
    ensures x != y ==> TypeLabel(x.Literal()) != TypeLabel(y.Literal())
    ensures x != y ==> TypeIcon(x.Literal()) != TypeIcon(y.Literal())
  {
    WorkshopTypeIsClosed();
  }

  const OtherStatusColor := "bg-gray-100 text-gray-700 border-gray-200"

  /** `getRegistrationStatusColor(status)`; an unknown status gets grey, the same
      colour as a cancelled workshop. */
  function StatusColor(status: string): (r: string)
    ensures ParseWorkshopStatus(status).None? ==> r == OtherStatusColor
  {
    match ParseWorkshopStatus(status)
    case Some(OpenRegistration) => "bg-green-100 text-green-700 border-green-200"
    case Some(Waitlist) => "bg-yellow-100 text-yellow-700 border-yellow-200"
    case Some(Full) => "bg-red-100 text-red-700 border-red-200"
    case Some(Cancelled) => OtherStatusColor
    case Some(Completed) => "bg-blue-100 text-blue-700 border-blue-200"
    case None => OtherStatusColor
  }

  /** The grey colour marks exactly the cancelled and the unknown statuses. */
  lemma GreyStatuses(status: string)
    ensures StatusColor(status) == OtherStatusColor <==> status == "cancelled" || ParseWorkshopStatus(status).None?
  {
    ParseStatusNone(status);
    if ParseWorkshopStatus(status).Some? {
      var z := ParseWorkshopStatus(status).value;
      assert z in WorkshopStatuses && z.Literal() == status;
    }
  }

  /** The statuses other than cancelled have colours of their own. */
  lemma StatusColorsDiffer(x: WorkshopStatus, y: WorkshopStatus)
    requires x != y && x != Cancelled && y != Cancelled
    ensures StatusColor(x.Literal()) != StatusColor(y.Literal())
  {
    WorkshopStatusIsClosed();
  }

  // ---------------------------------------------------------------------------
  // Humanised labels

  /** A character of the regular-expression class `\w`. */
  predicate IsWordChar(c: char) {
    IsAsciiLower(c) || IsAsciiUpper(c) || IsDigit(c) || c == '_'
  }

  function UpperChar(c: char): char {
    if IsAsciiLower(c) then (c as int - 32) as char else c
  }

  /** Whether `\b\w` matches at position `i`: a word character with no word
      character before it. */
  predicate StartsWord(s: string, i: int)
    requires 0 <= i < |s|
  {
    IsWordChar(s[i]) && (i == 0 || !IsWordChar(s[i - 1]))
  }

  /** `.replace(/\b\w/g, l => l.toUpperCase())`: the first character of every word
      upper-cased. A character changes only where a word starts, and only from
      lower to upper case; the words start where they started, and none of them
      starts with a lower-case letter any more. */
  function CapitaliseWords(s: string): (r: string)
    ensures |r| == |s|
    ensures forall i {:trigger r[i]} :: 0 <= i < |s| && r[i] != s[i] ==>
              StartsWord(s, i) && IsAsciiLower(s[i]) && r[i] == UpperChar(s[i])
    ensures forall i {:trigger StartsWord(r, i)} :: 0 <= i < |s| ==> StartsWord(r, i) == StartsWord(s, i)
    ensures forall i {:trigger StartsWord(r, i)} :: 0 <= i < |s| && StartsWord(r, i) ==> !IsAsciiLower(r[i])
  {
    seq(|s|, i requires 0 <= i < |s| => if StartsWord(s, i) then UpperChar(s[i]) else s[i])
  }

  /** Capitalising twice is capitalising once. */
  lemma CapitaliseWordsIsIdempotent(s: string)
    ensures CapitaliseWords(CapitaliseWords(s)) == CapitaliseWords(s)
  {
    var r := CapitaliseWords(s);
    var rr := CapitaliseWords(r);
    forall i | 0 <= i < |r| ensures rr[i] == r[i] {
      CapitaliseWordsAt(r, i);
      CapitaliseWordsAt(s, i);
    }
  }

  /** The character at `i` after capitalising. */
  lemma CapitaliseWordsAt(s: string, i: int)
    requires 0 <= i < |s|
    ensures CapitaliseWords(s)[i] == if StartsWord(s, i) then UpperChar(s[i]) else s[i]
  {
  }

  /** Replacing the first underscore by a space changes that one character only. */
  lemma ReplaceFirstUnderscore(s: string)
    ensures var t := ReplaceFirst(s, "_", " ");
            |t| == |s| && forall i :: 0 <= i < |s| && t[i] != s[i] ==>
              s[i] == '_' && t[i] == ' ' && IndexOf(s, "_") == Some(i)
  {
    var t := ReplaceFirst(s, "_", " ");
    if IndexOf(s, "_").Some? {
      var j := IndexOf(s, "_").value;
      assert s[j..j + 1] == "_";
      assert t == s[..j] + " " + s[j + 1..];
      assert forall i :: 0 <= i < |s| && i != j ==> t[i] == s[i];
    }
  }

  /** `text.replace('_', ' ').replace(/\b\w/g, l => l.toUpperCase())`: only the first
      underscore becomes a space; then every word starts upper-case. The length is
      kept, and a character changes only where it is that first underscore or a
      lower-case letter starting a word once that underscore is a space; letters
      inside a word keep their case. The first underscore does become a space,
      and no word of the result starts with a lower-case letter. */
  function Humanise(s: string): (r: string)
    ensures |r| == |s|
    ensures forall i :: 0 <= i < |s| && r[i] != s[i] ==>
              (s[i] == '_' && r[i] == ' ' && IndexOf(s, "_") == Some(i))
              || (StartsWord(ReplaceFirst(s, "_", " "), i) && IsAsciiLower(s[i]) && r[i] == UpperChar(s[i]))
    ensures IndexOf(s, "_").Some? ==> IndexOf(s, "_").value < |r| && r[IndexOf(s, "_").value] == ' '
    ensures forall i {:trigger StartsWord(r, i)} :: 0 <= i < |r| && StartsWord(r, i) ==> !IsAsciiLower(r[i])
  {
    ReplaceFirstUnderscore(s);
    var t := ReplaceFirst(s, "_", " ");
    if IndexOf(s, "_").Some? then
      var j := IndexOf(s, "_").value;
      assert s[j..j + 1] == "_";
      assert t[j] == ' ';
      CapitaliseWords(t)
    else
      CapitaliseWords(t)
  }

  predicate IsLowerWord(w: string) {
    w != [] && forall k :: 0 <= k < |w| ==> IsAsciiLower(w[k])
  }

  /** A space separates words: text on either side of it is capitalised as if it
      stood alone. */
  lemma CapitaliseAroundSpace(a: string, b: string)
    ensures CapitaliseWords(a + " " + b) == CapitaliseWords(a) + " " + CapitaliseWords(b)
  {
    var s := a + " " + b;
    var r := CapitaliseWords(s);
    var e := CapitaliseWords(a) + " " + CapitaliseWords(b);
    forall i | 0 <= i < |r| ensures r[i] == e[i] {
      CapitaliseAt(a, b, i);
    }
  }

  lemma CapitaliseAt(a: string, b: string, i: int)
    requires 0 <= i < |a| + 1 + |b|
    ensures CapitaliseWords(a + " " + b)[i] == (CapitaliseWords(a) + " " + CapitaliseWords(b))[i]
  {
    var ca, cb := CapitaliseWords(a), CapitaliseWords(b);
    if i < |a| {
      CapitaliseBefore(a, a + " " + b, i);
      assert (ca + " " + cb)[i] == ca[i];
    } else if i == |a| {
      CapitaliseSpace(a, b);
      assert (ca + " " + cb)[i] == ' ';
    } else {
      CapitaliseAfterSpace(a, b, i - |a| - 1);
      assert (ca + " " + cb)[i] == cb[i - |a| - 1];
    }
  }

  lemma CapitaliseSpace(a: string, b: string)
    ensures CapitaliseWords(a + " " + b)[|a|] == ' '
  {
    assert (a + " " + b)[|a|] == ' ';
    CapitaliseWordsAt(a + " " + b, |a|);
  }

  /** A character of `a` is capitalised alike in any text that `a` begins. */
  lemma CapitaliseBefore(a: string, s: string, i: int)
    requires 0 <= i < |a| <= |s| && forall k :: 0 <= k < |a| ==> s[k] == a[k]
    ensures CapitaliseWords(s)[i] == CapitaliseWords(a)[i]
  {
    assert s[i] == a[i];
    if i > 0 {
      assert s[i - 1] == a[i - 1];
    }
    assert StartsWord(s, i) == StartsWord(a, i);
    CapitaliseWordsAt(s, i);
    CapitaliseWordsAt(a, i);
  }

  /** A character of `b` after a space is capitalised as in `b` alone. */
  lemma CapitaliseAfterSpace(a: string, b: string, j: int)
    requires 0 <= j < |b|
    ensures CapitaliseWords(a + " " + b)[|a| + 1 + j] == CapitaliseWords(b)[j]
  {
    var s := a + " " + b;
    var i := |a| + 1 + j;
    assert s[i] == b[j];
    assert s[i - 1] == if j == 0 then ' ' else b[j - 1];
    assert StartsWord(s, i) == StartsWord(b, j);
    CapitaliseWordsAt(s, i);
    CapitaliseWordsAt(b, j);
  }

  /** A lower-case word is capitalised by upper-casing its first letter. */
  lemma CapitaliseWord(w: string)
    requires IsLowerWord(w)
    ensures CapitaliseWords(w) == [UpperChar(w[0])] + w[1..]
  {
    var r := CapitaliseWords(w);
    forall i | 0 < i < |w| ensures r[i] == w[i] {
      assert !StartsWord(w, i);
      CapitaliseWordsAt(w, i);
    }
    CapitaliseWordsAt(w, 0);
  }

  /** A lower-case word has no underscore. */
  lemma NoUnderscoreInWord(w: string)
    requires IsLowerWord(w)
    ensures IndexOf(w, "_").None?
  {
    forall k ensures !OccursAt(w, "_", k) {
      if 0 <= k < |w| {
        assert w[k..k + 1][0] == w[k];
      }
    }
  }

  /** A single lower-case word gets an upper-case initial. */
  lemma HumaniseWord(w: string)
    requires IsLowerWord(w)
    ensures Humanise(w) == [UpperChar(w[0])] + w[1..]
  {
    NoUnderscoreInWord(w);
    CapitaliseWord(w);
  }

  /** The first underscore after a lower-case word is the one right after it. */
  lemma UnderscoreAfterWord(a: string, b: string)
    requires IsLowerWord(a)
    ensures ReplaceFirst(a + "_" + b, "_", " ") == a + " " + b
  {
    var s := a + "_" + b;
    assert IndexOf(s, "_") == Some(|a|) by {
      assert s[|a|..|a| + 1] == "_";
      assert OccursAt(s, "_", |a|);
      forall k | 0 <= k < |a| ensures !OccursAt(s, "_", k) {
        assert s[k..k + 1][0] == s[k] == a[k];
      }
    }
    assert s[..|a|] == a && s[|a| + 1..] == b;
  }

  /** Two lower-case words joined by an underscore become two capitalised words
      joined by a space, as `open_registration` becomes `Open Registration`. */
  lemma HumaniseTwoWords(a: string, b: string)
    requires IsLowerWord(a) && IsLowerWord(b)
    ensures Humanise(a + "_" + b) == [UpperChar(a[0])] + a[1..] + " " + [UpperChar(b[0])] + b[1..]
  {
    HumaniseAfterWord(a, b);
    CapitaliseWord(a);
    CapitaliseWord(b);
  }

  /** Only the first underscore becomes a space: `a_b_c` is shown as `A B_c`. */
  lemma HumaniseKeepsLaterUnderscores()
    ensures Humanise("a_b_c") == "A B_c"
  {
    assert "a_b_c" == "a" + "_" + "b_c";
    HumaniseAfterWord("a", "b_c");
    assert CapitaliseWords("a") == "A" by {
      CapitaliseWord("a");
    }
    CapitaliseOneWord();
  }

  /** After a lower-case word, the first underscore becomes a space and the rest
      is capitalised on its own, underscores and all. */
  lemma HumaniseAfterWord(a: string, b: string)
    requires IsLowerWord(a)
    ensures Humanise(a + "_" + b) == CapitaliseWords(a) + " " + CapitaliseWords(b)
  {
    UnderscoreAfterWord(a, b);
    CapitaliseAroundSpace(a, b);
  }

  /** `b_c` is one word: only its first letter is capitalised. */
  lemma CapitaliseOneWord()
    ensures CapitaliseWords("b_c") == "B_c"
  {
    var r := CapitaliseWords("b_c");
    assert StartsWord("b_c", 0) && !StartsWord("b_c", 1) && !StartsWord("b_c", 2);
    assert r[0] == 'B' && r[1] == '_' && r[2] == 'c';
  }

  // ---------------------------------------------------------------------------
  // Registration

  /** A control in the registration block: a link, or a disabled button. */
  datatype Control = Link(text: string, href: string) | DisabledButton(text: string)

  function DetailsPath(slug: string): string {
    "/workshops/" + slug
  }

  /** The registration action (lines 180-202): open registration and waitlist
      link to the workshop's page; the other statuses give a disabled button. */
  function RegistrationAction(status: string, slug: string): (r: Control)
    ensures r.Link? <==> status == "open_registration" || status == "waitlist"
    ensures r.Link? ==> r.href == DetailsPath(slug)
  {
    if status == "open_registration" then Link("Register Now", DetailsPath(slug))
    else if status == "waitlist" then Link("Join Waitlist", DetailsPath(slug))
    else DisabledButton(
      if status == "full" then "Workshop Full"
      else if status == "cancelled" then "Cancelled"
      else if status == "completed" then "Completed"
      else "Unavailable")
  }

  /** Each declared status has its own action. */
  lemma RegistrationActionsDiffer(slug: string, x: WorkshopStatus, y: WorkshopStatus)
    requires x != y
    ensures RegistrationAction(x.Literal(), slug) != RegistrationAction(y.Literal(), slug)
  {
  }

  /** "Unavailable" is the action of exactly the undeclared statuses. */
  lemma UnavailableMeansUndeclared(status: string, slug: string)
    ensures RegistrationAction(status, slug) == DisabledButton("Unavailable") <==> ParseWorkshopStatus(status).None?
  {
    ParseStatusNone(status);
  }

  /** The declared statuses are the five literals. */
  lemma ParseStatusNone(status: string)
    ensures ParseWorkshopStatus(status).None? <==>
              status !in {"open_registration", "waitlist", "full", "cancelled", "completed"}
  {
    var ws := WorkshopStatuses;
    assert ws[0].Literal() == "open_registration" && ws[1].Literal() == "waitlist" && ws[2].Literal() == "full";
    assert ws[3].Literal() == "cancelled" && ws[4].Literal() == "completed";
    if ParseWorkshopStatus(status).Some? {
      var z := ParseWorkshopStatus(status).value;
      assert z in ws && z.Literal() == status;
    }
  }

  /** The registration block: the action and a "View Details" link. */
  datatype Registration = Registration(action: Control, details: Control)

  // ---------------------------------------------------------------------------
  // The card

  /** The price badge: the formatted price (`formatCurrency` is not part of this
      model) or "Free". */
  datatype PriceBadge = Free | Priced(amount: real, currency: string)

  function PriceLabel(price: real, currency: string): (r: PriceBadge)
    ensures r.Priced? <==> price > 0.0
    ensures r.Priced? ==> r == Priced(price, currency)
  {
    if price > 0.0 then Priced(price, currency) else Free
  }

  /** The image banner with its type badge, status badge and price badge. */
  datatype Banner = Banner(
    imageSrc: string,
    typeIcon: Icon,
    typeLabel: string,
    statusColor: string,
    statusText: string,
    price: PriceBadge)

  datatype Card = Card(
    banner: Option<Banner>,
    title: string,
    scheduledDate: Option<string>,
    duration: string,
    participants: string,
    language: string,
    location: Option<string>,
    skillColor: string,
    skillText: string,
    description: Option<string>,
    culturalContext: Option<string>,
    registration: Option<Registration>)

  /** A JavaScript string is truthy when it is not empty. */
  predicate IsTruthy(s: Option<string>) {
    s.Some? && s.value != ""
  }

  /** The address line: in-person workshops with a truthy address only. */
  function LocationLine(f: Fields): (r: Option<string>)
    ensures r.Some? <==> f.workshopType == "live_in_person" && f.location.Some? && IsTruthy(f.location.value.address)
  {
    if f.workshopType == "live_in_person" && f.location.Some? && IsTruthy(f.location.value.address)
    then f.location.value.address
    else None
  }

  /** What the card renders for `workshop` with `showRegistration` (default true):
      nothing without a workshop or without metadata; otherwise the banner when the
      thumbnail has an image-service URL, the details (the date, description and
      cultural context only when they are non-empty), and the registration block
      when it is switched on. */
  function RenderCard(workshop: Option<Workshop>, showRegistration: Option<bool>): (r: Option<Card>)
    ensures r.None? <==> workshop.None? || workshop.value.metadata.None?
    ensures r.Some? ==>
              var f := WithDefaults(workshop.value.metadata.value);
              && (r.value.banner.Some? <==> f.thumbnail.Some? && f.thumbnail.value.imgixUrl != "")
              && (r.value.location.Some? <==> f.workshopType == "live_in_person" && f.location.Some?
                                               && IsTruthy(f.location.value.address))
              && (r.value.registration.Some? <==> showRegistration.GetOr(true))
              && (r.value.scheduledDate.Some? <==> IsTruthy(f.scheduledDate))
              && (r.value.description.Some? <==> IsTruthy(f.description))
              && (r.value.culturalContext.Some? <==> IsTruthy(f.culturalContext))
  {
    if workshop.None? || workshop.value.metadata.None? then None
    else
      var w := workshop.value;
      var f := WithDefaults(w.metadata.value);
      var banner :=
        if f.thumbnail.Some? && f.thumbnail.value.imgixUrl != "" then
          Some(Banner(
            Utils.OptimizedImageUrl(f.thumbnail.value.imgixUrl, Some(600), Some(300)),
            TypeIcon(f.workshopType),
            TypeLabel(f.workshopType),
            StatusColor(f.registrationStatus),
            Humanise(f.registrationStatus),
            PriceLabel(f.price, f.currency)))
        else None;
      var registration :=
        if showRegistration.GetOr(true) then
          Some(Registration(RegistrationAction(f.registrationStatus, w.slug), Link("View Details", DetailsPath(w.slug))))
        else None;
      Some(Card(
        banner,
        w.title,
        if IsTruthy(f.scheduledDate) then f.scheduledDate else None,
        Utils.FormatDuration(f.durationMinutes),
        "Max " + IntToString(f.maxParticipants) + " participants",
        "Conducted in " + f.language,
        LocationLine(f),
        Utils.SkillLevelColor(f.skillLevel),
        Humanise(f.skillLevel) + " Level",
        if IsTruthy(f.description) then f.description else None,
        if IsTruthy(f.culturalContext) then f.culturalContext else None,
        registration))
  }

  /** Every link the registration block holds leads to `/workshops/<slug>`. */
  lemma RegistrationLinksTargetTheWorkshop(workshop: Workshop, showRegistration: Option<bool>)
    requires workshop.metadata.Some?
    ensures var r := RenderCard(Some(workshop), showRegistration);
            r.Some? && r.value.registration.Some? ==>
              var reg := r.value.registration.value;
              (reg.action.Link? ==> reg.action.href == "/workshops/" + workshop.slug)
              && reg.details == Link("View Details", "/workshops/" + workshop.slug)
  {
  }

  /** The banner image is the thumbnail's image-service URL with a 600 by 300 crop
      query, and its price badge reads "Free" exactly when the price is not
      positive. */
  lemma BannerShowsCroppedImageAndPrice(workshop: Workshop, showRegistration: Option<bool>)
    requires workshop.metadata.Some?
    ensures var r := RenderCard(Some(workshop), showRegistration);
            var f := WithDefaults(workshop.metadata.value);
            r.Some? && r.value.banner.Some? ==>
              && r.value.banner.value.imageSrc == f.thumbnail.value.imgixUrl + "?" + ("w=600&" + "h=300&" + Utils.FixedQuery())
              && (r.value.banner.value.price == Free <==> f.price <= 0.0)
  {
    BannerDimensions();
  }

  /** The banner's dimensions as query text. */
  lemma BannerDimensions()
    ensures Utils.DimensionText("w", Some(600)) == "w=600&"
    ensures Utils.DimensionText("h", Some(300)) == "h=300&"
  {
    assert NatToString(6) == "6" && NatToString(3) == "3";
    assert NatToString(60) == "60" && NatToString(30) == "30";
    assert NatToString(600) == "600" && NatToString(300) == "300";
  }
}
