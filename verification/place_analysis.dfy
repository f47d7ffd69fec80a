/** The screenshot records of a place analysis. */
module PlaceAnalysis {
  import opened Wrappers

  /** The gallery a screenshot belongs to. */
  datatype Kategori =
    | Oversikt
    | Demografi
    | Marked
    | Bevegelse
    | Sosiodemografi
    | Konkurranse
    | Korthandel
    | Besokende
    | Internasjonal
    | Utvikling
    | Annet

  datatype ScreenshotData = ScreenshotData(
    id: string,
    filnavn: string,
    path: string,
    beskrivelse: string,
    kategori: Kategori,
    timestamp: Option<string>)
}
