/**
 How the 2024 annual report page sorts the screenshots of an analysis into its
 galleries: one list per shown category, with the competitor map taken out of
 the competition gallery and shown on its own.
 */
module ReportPage {
  import opened Wrappers
  import opened Sequences
  import opened PlaceAnalysis

  /** Id of the competitor map, shown apart from the competition gallery. */
  const MapId: string := "konkurranse-aktorer-kart"

  /** The screenshot belongs to category `k`. */
  function InCategory(k: Kategori): ScreenshotData -> bool
  {
    (s: ScreenshotData) => s.kategori == k
  }

  /** The screenshot is the competitor map by its id. */
  function IsMap(s: ScreenshotData): bool
  {
    s.id == MapId
  }

  /** The screenshot is not the competitor map by its id. */
  function IsNotMap(s: ScreenshotData): bool
  {
    s.id != MapId
  }

  /** A competition screenshot that is not the map. */
  function IsCompetitionGallery(s: ScreenshotData): bool
  {
    s.kategori == Konkurranse && s.id != MapId
  }

  /** The competitor map among the competition screenshots. */
  function IsCompetitorMap(s: ScreenshotData): bool
  {
    s.kategori == Konkurranse && s.id == MapId
  }

  /** The screenshots of category `k`, in order; none when the analysis has no screenshot list. */
  function OfCategory(screenshots: Option<seq<ScreenshotData>>, k: Kategori): (r: seq<ScreenshotData>)
    ensures screenshots.None? ==> r == []
    ensures forall i :: 0 <= i < |r| ==> r[i].kategori == k
  {
    match screenshots
    case None => []
    case Some(all) => Filter(all, InCategory(k))
  }

  /** A category gallery keeps exactly the screenshots of its category, in their original order. */
  lemma CategoryInOrder(all: seq<ScreenshotData>, k: Kategori)
    ensures Selects(OfCategory(Some(all), k), all, InCategory(k))
  {
    FilterSelects(all, InCategory(k));
  }

  /** The first competition screenshot with the map id, if any; none when the analysis has no screenshot list. */
  function CompetitorMap(screenshots: Option<seq<ScreenshotData>>): (r: Option<ScreenshotData>)
    ensures screenshots.None? ==> r.None?
    ensures screenshots.Some? ==> r == Find(screenshots.value, IsCompetitorMap)
    ensures r.Some? ==> IsCompetitorMap(r.value)
  {
    match screenshots
    case None => None
    case Some(all) =>
      FindAfterFilter(all, InCategory(Konkurranse), IsMap, IsCompetitorMap);
      Find(OfCategory(screenshots, Konkurranse), IsMap)
  }

  /** `konkurranseScreenshots`: the competition screenshots without the map, in order. */
  function CompetitionGallery(screenshots: Option<seq<ScreenshotData>>): (r: seq<ScreenshotData>)
    ensures screenshots.None? ==> r == []
    ensures forall i :: 0 <= i < |r| ==> IsCompetitionGallery(r[i])
  {
    Filter(OfCategory(screenshots, Konkurranse), IsNotMap)
  }

  /** The competition gallery keeps exactly the non-map competition screenshots, in their original order. */
  lemma CompetitionInOrder(all: seq<ScreenshotData>)
    ensures Selects(CompetitionGallery(Some(all)), all, IsCompetitionGallery)
  {
    FilterFilter(all, InCategory(Konkurranse), IsNotMap, IsCompetitionGallery);
    FilterSelects(all, IsCompetitionGallery);
  }

  /** The galleries of the page. */
  datatype Galleries = Galleries(
    aktorkartImage: Option<ScreenshotData>,
    konkurranse: seq<ScreenshotData>,
    korthandel: seq<ScreenshotData>,
    bevegelse: seq<ScreenshotData>,
    besokende: seq<ScreenshotData>,
    internasjonal: seq<ScreenshotData>,
    utvikling: seq<ScreenshotData>)

  /** Every element of `l` has placement `a`. */
  ghost predicate PlacedAt(l: seq<ScreenshotData>, a: nat)
  {
    forall i :: 0 <= i < |l| ==> Placement(l[i]) == Some(a)
  }

  /** The page's competitor map and its six galleries, built from the analysis's optional screenshot list. */
  function Group(screenshots: Option<seq<ScreenshotData>>): (g: Galleries)
    ensures screenshots.None? ==> g == Galleries(None, [], [], [], [], [], [])
    ensures g.aktorkartImage.Some? ==> IsCompetitorMap(g.aktorkartImage.value)
  {
    Galleries(
      CompetitorMap(screenshots),
      CompetitionGallery(screenshots),
      OfCategory(screenshots, Korthandel),
      OfCategory(screenshots, Bevegelse),
      OfCategory(screenshots, Besokende),
      OfCategory(screenshots, Internasjonal),
      OfCategory(screenshots, Utvikling))
  }

  /** The gallery lists a screenshot can be listed in. */
  function Lists(g: Galleries): seq<seq<ScreenshotData>>
  {
    [g.konkurranse, g.korthandel, g.bevegelse, g.besokende, g.internasjonal, g.utvikling]
  }

  /** The position in `Lists` of the one gallery that may list `x`, if any. */
  function Placement(x: ScreenshotData): Option<nat>
  {
    if IsCompetitorMap(x) then None else GalleryIndex(x.kategori)
  }

  /** The position in `Lists` of the gallery of category `k`, if the page shows one. */
  function GalleryIndex(k: Kategori): Option<nat>
  {
    match k
    case Konkurranse => Some(0)
    case Korthandel => Some(1)
    case Bevegelse => Some(2)
    case Besokende => Some(3)
    case Internasjonal => Some(4)
    case Utvikling => Some(5)
    case _ => None
  }

  /** Each gallery holds only screenshots that their category places there. */
  ghost predicate WellPlaced(g: Galleries)
  {
    && PlacedAt(g.konkurranse, 0) && PlacedAt(g.korthandel, 1) && PlacedAt(g.bevegelse, 2)
    && PlacedAt(g.besokende, 3) && PlacedAt(g.internasjonal, 4) && PlacedAt(g.utvikling, 5)
  }

  lemma GroupWellPlaced(screenshots: Option<seq<ScreenshotData>>)
    ensures WellPlaced(Group(screenshots))
  {
    CompetitionPlaced(screenshots);
    CategoryPlaced(screenshots, Korthandel, 1);
    CategoryPlaced(screenshots, Bevegelse, 2);
    CategoryPlaced(screenshots, Besokende, 3);
    CategoryPlaced(screenshots, Internasjonal, 4);
    CategoryPlaced(screenshots, Utvikling, 5);
  }

  /** The competition gallery holds only screenshots placed in it. */
  lemma CompetitionPlaced(screenshots: Option<seq<ScreenshotData>>)
    ensures PlacedAt(CompetitionGallery(screenshots), 0)
  {
    var l := CompetitionGallery(screenshots);
    forall i | 0 <= i < |l| ensures Placement(l[i]) == Some(0) {
      assert IsCompetitionGallery(l[i]);
    }
  }

  /** The gallery of a shown category `k` other than the competition holds only screenshots placed in it. */
  lemma CategoryPlaced(screenshots: Option<seq<ScreenshotData>>, k: Kategori, a: nat)
    requires k != Konkurranse && GalleryIndex(k) == Some(a)
    ensures PlacedAt(OfCategory(screenshots, k), a)
  {
    var l := OfCategory(screenshots, k);
    forall i | 0 <= i < |l| ensures Placement(l[i]) == Some(a) {
      assert l[i].kategori == k;
    }
  }

  /** A screenshot placed nowhere, or placed elsewhere, is not in the list at `a`. */
  lemma NotPlacedNotListed(screenshots: Option<seq<ScreenshotData>>, a: nat, x: ScreenshotData)
    requires a < 6 && Placement(x) != Some(a)
    ensures x !in Lists(Group(screenshots))[a]
  {
    GroupWellPlaced(screenshots);
    WellPlacedExcludes(Group(screenshots), a, x);
  }

  lemma WellPlacedExcludes(g: Galleries, a: nat, x: ScreenshotData)
    requires WellPlaced(g)
    requires a < 6 && Placement(x) != Some(a)
    ensures x !in Lists(g)[a]
  {
    NotPlacedNotIn(Lists(g)[a], a, x);
  }

  lemma NotPlacedNotIn(l: seq<ScreenshotData>, a: nat, x: ScreenshotData)
    requires PlacedAt(l, a) && Placement(x) != Some(a)
    ensures x !in l
  {
  }

  /** No screenshot is listed in two galleries. */
  lemma GalleriesDisjoint(screenshots: Option<seq<ScreenshotData>>)
    ensures var lists := Lists(Group(screenshots));
      forall a, b, x :: 0 <= a < b < |lists| && x in lists[a] ==> x !in lists[b]
  {
    var lists := Lists(Group(screenshots));
    forall a, b, x | 0 <= a < b < |lists| && x in lists[a] ensures x !in lists[b] {
      if Placement(x) == Some(b) {
        NotPlacedNotListed(screenshots, a, x);
      } else {
        NotPlacedNotListed(screenshots, b, x);
      }
    }
  }

  /** The competitor map is a competition screenshot with the map id, so no gallery lists it. */
  lemma MapListedNowhere(screenshots: Option<seq<ScreenshotData>>)
    ensures var g := Group(screenshots);
      g.aktorkartImage.Some? ==> IsCompetitorMap(g.aktorkartImage.value) && forall a :: 0 <= a < 6 ==> g.aktorkartImage.value !in Lists(g)[a]
  {
    var g := Group(screenshots);
    if g.aktorkartImage.Some? {
      assert IsCompetitorMap(g.aktorkartImage.value);
      forall a | 0 <= a < 6 ensures g.aktorkartImage.value !in Lists(g)[a] {
        NotPlacedNotListed(screenshots, a, g.aktorkartImage.value);
      }
    }
  }

  /** Overview, demography, market, sociodemography and other screenshots appear in no gallery. */
  lemma UnshownCategories(screenshots: Option<seq<ScreenshotData>>, x: ScreenshotData)
    requires x.kategori in {Oversikt, Demografi, Marked, Sosiodemografi, Annet}
    ensures var g := Group(screenshots);
      && (forall a :: 0 <= a < 6 ==> x !in Lists(g)[a])
      && g.aktorkartImage != Some(x)
  {
    forall a | 0 <= a < 6 ensures x !in Lists(Group(screenshots))[a] {
      NotPlacedNotListed(screenshots, a, x);
    }
  }

  /**
   Every screenshot of a shown category is listed in its gallery, except the
   competitor map, which is shown on its own when it is the first with its id
   and not at all otherwise.
   */
  lemma ShownCategoriesListed(all: seq<ScreenshotData>, x: ScreenshotData)
    requires x in all
    requires x.kategori in {Konkurranse, Korthandel, Bevegelse, Besokende, Internasjonal, Utvikling}
    ensures var g := Group(Some(all));
      (x.kategori == Konkurranse && x.id == MapId) || exists l :: l in Lists(g) && x in l
    ensures Group(Some(all)).aktorkartImage.Some? <==> exists i :: 0 <= i < |all| && IsCompetitorMap(all[i])
  {
    var g := Group(Some(all));
    var i :| 0 <= i < |all| && all[i] == x;
    FilterMembership(all, InCategory(x.kategori), x);
    match x.kategori {
      case Konkurranse =>
        if x.id != MapId {
          FilterMembership(OfCategory(Some(all), Konkurranse), IsNotMap, x);
          assert g.konkurranse in Lists(g);
        }
      case Korthandel => assert g.korthandel in Lists(g);
      case Bevegelse => assert g.bevegelse in Lists(g);
      case Besokende => assert g.besokende in Lists(g);
      case Internasjonal => assert g.internasjonal in Lists(g);
      case Utvikling => assert g.utvikling in Lists(g);
    }
  }
}
