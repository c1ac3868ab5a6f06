/** The record shapes and select-value enumerations the site declares for the
    content store's objects, and the guards that discriminate objects by their
    `type` tag. */
module Types {
  import opened Wrappers

  /** The fields every stored object has. `M` is the kind-specific metadata;
      `metadata` is optional because a consumer cannot rely on its presence.
      The field `type` is called `kind` here (`type` is a Dafny keyword). */
  datatype CosmicObject<M> = CosmicObject(
    id: string,
    slug: string,
    title: string,
    content: Option<string>,
    metadata: Option<M>,
    kind: string,
    createdAt: string,
    modifiedAt: string)

  /** Looks a literal up in a list of enumeration members. */
  function Lookup<E>(members: seq<E>, literal: E -> string, s: string): (r: Option<E>)
    ensures r.Some? ==> r.value in members && literal(r.value) == s
    ensures r.None? ==> forall k :: 0 <= k < |members| ==> literal(members[k]) != s
  {
    if members == [] then None
    else if literal(members[0]) == s then Some(members[0])
    else Lookup(members[1..], literal, s)
  }

  /** In a list with distinct literals, looking up a member's literal finds that
      member. */
  lemma {:induction false} LookupFindsListed<E>(members: seq<E>, literal: E -> string, k: int)
    requires DistinctLiterals(members, literal) && 0 <= k < |members|
    ensures Lookup(members, literal, literal(members[k])) == Some(members[k])
  {
    if k > 0 {
      assert literal(members[0]) != literal(members[k]);
      var tail := members[1..];
      assert DistinctLiterals(tail, literal) by {
        forall i, j | 0 <= i < j < |tail| ensures literal(tail[i]) != literal(tail[j]) {
          assert tail[i] == members[i + 1] && tail[j] == members[j + 1];
        }
      }
      LookupFindsListed(tail, literal, k - 1);
    }
  }

  /** The members are listed once each, under distinct literals. */
  predicate DistinctLiterals<E>(members: seq<E>, literal: E -> string) {
    forall i, j :: 0 <= i < j < |members| ==> literal(members[i]) != literal(members[j])
  }

  datatype ArtisanStatus = PendingVerification | Verified | MasterArtisan | Suspended {
    function Literal(): string {
      match this
      case PendingVerification => "pending_verification"
      case Verified => "verified"
      case MasterArtisan => "master_artisan"
      case Suspended => "suspended"
    }
  }
  const ArtisanStatuses: seq<ArtisanStatus> := [PendingVerification, Verified, MasterArtisan, Suspended]

  datatype ProductStatus = Available | MadeToOrder | OutOfStock | Discontinued {
    function Literal(): string {
      match this
      case Available => "available"
      case MadeToOrder => "made_to_order"
      case OutOfStock => "out_of_stock"
      case Discontinued => "discontinued"
    }
  }
  const ProductStatuses: seq<ProductStatus> := [Available, MadeToOrder, OutOfStock, Discontinued]

  datatype StoryType = CraftTechnique | CulturalHeritage | ArtisanJourney | MaterialSourcing {
    function Literal(): string {
      match this
      case CraftTechnique => "craft_technique"
      case CulturalHeritage => "cultural_heritage"
      case ArtisanJourney => "artisan_journey"
      case MaterialSourcing => "material_sourcing"
    }
  }
  const StoryTypes: seq<StoryType> := [CraftTechnique, CulturalHeritage, ArtisanJourney, MaterialSourcing]

  datatype WorkshopType = LiveInPerson | VirtualOnline | Hybrid | RecordedCourse {
    function Literal(): string {
      match this
      case LiveInPerson => "live_in_person"
      case VirtualOnline => "virtual_online"
      case Hybrid => "hybrid"
      case RecordedCourse => "recorded_course"
    }
  }
  const WorkshopTypes: seq<WorkshopType> := [LiveInPerson, VirtualOnline, Hybrid, RecordedCourse]

  datatype WorkshopStatus = OpenRegistration | Waitlist | Full | Cancelled | Completed {
    function Literal(): string {
      match this
      case OpenRegistration => "open_registration"
      case Waitlist => "waitlist"
      case Full => "full"
      case Cancelled => "cancelled"
      case Completed => "completed"
    }
  }
  const WorkshopStatuses: seq<WorkshopStatus> := [OpenRegistration, Waitlist, Full, Cancelled, Completed]

  datatype SkillLevel = Beginner | Intermediate | Advanced | MasterClass {
    function Literal(): string {
      match this
      case Beginner => "beginner"
      case Intermediate => "intermediate"
      case Advanced => "advanced"
      case MasterClass => "master_class"
    }
  }
  const SkillLevels: seq<SkillLevel> := [Beginner, Intermediate, Advanced, MasterClass]

  datatype DemandLevel = VeryLow | Low | Moderate | High | VeryHigh {
    function Literal(): string {
      match this
      case VeryLow => "very_low"
      case Low => "low"
      case Moderate => "moderate"
      case High => "high"
      case VeryHigh => "very_high"
    }
  }
  const DemandLevels: seq<DemandLevel> := [VeryLow, Low, Moderate, High, VeryHigh]

  datatype FinancingType = Microloan | Crowdfunding | Grant | Investment | Sponsorship {
    function Literal(): string {
      match this
      case Microloan => "microloan"
      case Crowdfunding => "crowdfunding"
      case Grant => "grant"
      case Investment => "investment"
      case Sponsorship => "sponsorship"
    }
  }
  const FinancingTypes: seq<FinancingType> := [Microloan, Crowdfunding, Grant, Investment, Sponsorship]

  datatype AIContentType = ProductDescription | CulturalStoryText | BlogPost | SocialMedia | VideoScript {
    function Literal(): string {
      match this
      case ProductDescription => "product_description"
      case CulturalStoryText => "cultural_story"
      case BlogPost => "blog_post"
      case SocialMedia => "social_media"
      case VideoScript => "video_script"
    }
  }
  const AIContentTypes: seq<AIContentType> := [ProductDescription, CulturalStoryText, BlogPost, SocialMedia, VideoScript]

  function WorkshopTypeLiteral(x: WorkshopType): string {
    x.Literal()
  }

  function ParseWorkshopType(s: string): Option<WorkshopType> {
    Lookup(WorkshopTypes, WorkshopTypeLiteral, s)
  }

  function WorkshopStatusLiteral(x: WorkshopStatus): string {
    x.Literal()
  }

  function ParseWorkshopStatus(s: string): Option<WorkshopStatus> {
    Lookup(WorkshopStatuses, WorkshopStatusLiteral, s)
  }

  function SkillLevelLiteral(x: SkillLevel): string {
    x.Literal()
  }

  function ParseSkillLevel(s: string): Option<SkillLevel> {
    Lookup(SkillLevels, SkillLevelLiteral, s)
  }

  function DemandLevelLiteral(x: DemandLevel): string {
    x.Literal()
  }

  function ParseDemandLevel(s: string): Option<DemandLevel> {
    Lookup(DemandLevels, DemandLevelLiteral, s)
  }

  /* Each select-value union is closed: its member list names every value once,
     under pairwise distinct literals, and has the declared number of members. */

  lemma ArtisanStatusIsClosed()
    ensures |ArtisanStatuses| == 4 && forall x: ArtisanStatus :: x in ArtisanStatuses
    ensures DistinctLiterals(ArtisanStatuses, (x: ArtisanStatus) => x.Literal())
  {
    forall x: ArtisanStatus ensures x in ArtisanStatuses {
      assert x.PendingVerification? || x.Verified? || x.MasterArtisan? || x.Suspended?;
    }
  }

  lemma ProductStatusIsClosed()
    ensures |ProductStatuses| == 4 && forall x: ProductStatus :: x in ProductStatuses
    ensures DistinctLiterals(ProductStatuses, (x: ProductStatus) => x.Literal())
  {
    forall x: ProductStatus ensures x in ProductStatuses {
      assert x.Available? || x.MadeToOrder? || x.OutOfStock? || x.Discontinued?;
    }
  }

  lemma StoryTypeIsClosed()
    ensures |StoryTypes| == 4 && forall x: StoryType :: x in StoryTypes
    ensures DistinctLiterals(StoryTypes, (x: StoryType) => x.Literal())
  {
    forall x: StoryType ensures x in StoryTypes {
      assert x.CraftTechnique? || x.CulturalHeritage? || x.ArtisanJourney? || x.MaterialSourcing?;
    }
  }

  lemma WorkshopTypeIsClosed()
    ensures |WorkshopTypes| == 4 && forall x: WorkshopType :: x in WorkshopTypes
    ensures DistinctLiterals(WorkshopTypes, WorkshopTypeLiteral)
    ensures forall x: WorkshopType :: ParseWorkshopType(x.Literal()) == Some(x)
  {
    assert DistinctLiterals(WorkshopTypes, WorkshopTypeLiteral);
    forall x: WorkshopType ensures x in WorkshopTypes && ParseWorkshopType(x.Literal()) == Some(x) {
      var k: int;
      match x {
        case LiveInPerson => k := 0;
        case VirtualOnline => k := 1;
        case Hybrid => k := 2;
        case RecordedCourse => k := 3;
      }
      assert WorkshopTypes[k] == x;
      LookupFindsListed(WorkshopTypes, WorkshopTypeLiteral, k);
    }
  }


  lemma WorkshopStatusIsClosed()
    ensures |WorkshopStatuses| == 5 && forall x: WorkshopStatus :: x in WorkshopStatuses
    ensures DistinctLiterals(WorkshopStatuses, WorkshopStatusLiteral)
    ensures forall x: WorkshopStatus :: ParseWorkshopStatus(x.Literal()) == Some(x)
  {
    assert DistinctLiterals(WorkshopStatuses, WorkshopStatusLiteral);
    forall x: WorkshopStatus ensures x in WorkshopStatuses && ParseWorkshopStatus(x.Literal()) == Some(x) {
      var k: int;
      match x {
        case OpenRegistration => k := 0;
        case Waitlist => k := 1;
        case Full => k := 2;
        case Cancelled => k := 3;
        case Completed => k := 4;
      }
      assert WorkshopStatuses[k] == x;
      LookupFindsListed(WorkshopStatuses, WorkshopStatusLiteral, k);
    }
  }


  lemma SkillLevelIsClosed()
    ensures |SkillLevels| == 4 && forall x: SkillLevel :: x in SkillLevels
    ensures DistinctLiterals(SkillLevels, SkillLevelLiteral)
    ensures forall x: SkillLevel :: ParseSkillLevel(x.Literal()) == Some(x)
  {
    assert DistinctLiterals(SkillLevels, SkillLevelLiteral);
    forall x: SkillLevel ensures x in SkillLevels && ParseSkillLevel(x.Literal()) == Some(x) {
      var k: int;
      match x {
        case Beginner => k := 0;
        case Intermediate => k := 1;
        case Advanced => k := 2;
        case MasterClass => k := 3;
      }
      assert SkillLevels[k] == x;
      LookupFindsListed(SkillLevels, SkillLevelLiteral, k);
    }
  }


  lemma DemandLevelIsClosed()
    ensures |DemandLevels| == 5 && forall x: DemandLevel :: x in DemandLevels
    ensures DistinctLiterals(DemandLevels, DemandLevelLiteral)
    ensures forall x: DemandLevel :: ParseDemandLevel(x.Literal()) == Some(x)
  {
    assert DistinctLiterals(DemandLevels, DemandLevelLiteral);
    forall x: DemandLevel ensures x in DemandLevels && ParseDemandLevel(x.Literal()) == Some(x) {
      var k: int;
      match x {
        case VeryLow => k := 0;
        case Low => k := 1;
        case Moderate => k := 2;
        case High => k := 3;
        case VeryHigh => k := 4;
      }
      assert DemandLevels[k] == x;
      LookupFindsListed(DemandLevels, DemandLevelLiteral, k);
    }
  }


  lemma FinancingTypeIsClosed()
    ensures |FinancingTypes| == 5 && forall x: FinancingType :: x in FinancingTypes
    ensures DistinctLiterals(FinancingTypes, (x: FinancingType) => x.Literal())
  {
    forall x: FinancingType ensures x in FinancingTypes {
      assert x.Microloan? || x.Crowdfunding? || x.Grant? || x.Investment? || x.Sponsorship?;
    }
  }

  lemma AIContentTypeIsClosed()
    ensures |AIContentTypes| == 5 && forall x: AIContentType :: x in AIContentTypes
    ensures DistinctLiterals(AIContentTypes, (x: AIContentType) => x.Literal())
  {
    forall x: AIContentType ensures x in AIContentTypes {
      assert x.ProductDescription? || x.CulturalStoryText? || x.BlogPost? || x.SocialMedia? || x.VideoScript?;
    }
  }

  /** The location of an in-person workshop. */
  datatype Location = Location(address: Option<string>)

  /** An uploaded image: its plain URL and its image-service URL. */
  datatype Image = Image(url: string, imgixUrl: string)

  /** Workshop metadata as declared: every field optional. The select-value fields
      are strings because the store may hold a value outside the declared union. */
  datatype WorkshopMeta = WorkshopMeta(
    workshopType: Option<string>,
    scheduledDate: Option<string>,
    durationMinutes: Option<int>,
    maxParticipants: Option<int>,
    price: Option<real>,
    currency: Option<string>,
    description: Option<string>,
    skillLevel: Option<string>,
    language: Option<string>,
    virtualLink: Option<string>,
    location: Option<Location>,
    thumbnail: Option<Image>,
    registrationStatus: Option<string>,
    culturalContext: Option<string>)

  type Workshop = CosmicObject<WorkshopMeta>

  predicate IsArtisan<M>(o: CosmicObject<M>) { o.kind == "artisans" }

  predicate IsProduct<M>(o: CosmicObject<M>) { o.kind == "products" }

  predicate IsWorkshop<M>(o: CosmicObject<M>) { o.kind == "workshops" }

  predicate IsCulturalStory<M>(o: CosmicObject<M>) { o.kind == "cultural_stories" }

  /** How many of the four guards accept `o`. */
  function GuardsHolding<M>(o: CosmicObject<M>): nat {
    (if IsArtisan(o) then 1 else 0) + (if IsProduct(o) then 1 else 0)
    + (if IsWorkshop(o) then 1 else 0) + (if IsCulturalStory(o) then 1 else 0)
  }

  /** The guards are mutually exclusive, and each accepts exactly its tag. */
  lemma GuardsAreExclusive<M>(o: CosmicObject<M>)
    ensures GuardsHolding(o) <= 1
    ensures GuardsHolding(o) == 1 <==> o.kind in {"artisans", "products", "workshops", "cultural_stories"}
  {
  }

  /** A guard's verdict depends on the `type` tag alone: objects that agree on it
      are judged alike whatever their other fields hold. */
  lemma GuardsReadOnlyTheTag<M, N>(o: CosmicObject<M>, p: CosmicObject<N>)
    requires o.kind == p.kind
    ensures IsArtisan(o) == IsArtisan(p) && IsProduct(o) == IsProduct(p)
    ensures IsWorkshop(o) == IsWorkshop(p) && IsCulturalStory(o) == IsCulturalStory(p)
  {
  }
}
