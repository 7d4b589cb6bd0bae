/** The day/night theme: the colour pair `applyTheme` writes into the two
    custom properties, and the theme chosen at startup. */
module Theme {

  const Night: string := "night"
  const Day: string := "day"

  /** The two RGB triples the stylesheet uses. */
  const White: string := "255, 255, 255"
  const Ink: string := "10, 10, 20"

  /** Values of the `--color-dark` and `--color-light` custom properties. */
  datatype Palette = Palette(dark: string, light: string)

  /** `applyTheme(theme)`: "night" writes white into `--color-dark` and the
      ink colour into `--color-light`; any other value writes the two the
      other way round. */
  function ThemeColors(theme: string): (p: Palette)
    ensures p.dark == White <==> theme == Night
    ensures p.dark in {White, Ink} && p.light in {White, Ink} && p.dark != p.light
  {
    if theme == Night then Palette(White, Ink) else Palette(Ink, White)
  }

  /** The startup theme: "night" when the display prefers a dark scheme,
      "day" otherwise. */
  function InitialTheme(prefersDark: bool): (t: string)
    ensures t == Night <==> prefersDark
    ensures t == Night || t == Day
  {
    if prefersDark then Night else Day
  }

  /** Every theme other than "night" gives the night palette swapped. */
  lemma OtherThemesSwapNight(theme: string)
    requires theme != Night
    ensures ThemeColors(theme) == Palette(ThemeColors(Night).light, ThemeColors(Night).dark)
  {
  }
}
