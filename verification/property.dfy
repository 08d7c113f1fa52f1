/** The immutable description of one showcase target, and the key-to-target
    registry that the screen's elements fill in as they are laid out. */
module Property {
  import opened Geometry

  /** The four cut-out shapes the overlay can draw. */
  datatype ShowcaseType = SimpleRounded | SimpleRectangle | AnimatedRounded | AnimatedRectangle

  /** A colour as a packed ARGB value. */
  datatype Color = Color(argb: nat)

  const White: Color := Color(0xFFFF_FFFF)
  const DefaultShowcaseType: ShowcaseType := SimpleRounded
  const DefaultBlurOpacity: real := 0.8
  const DefaultShowcaseDelay: int := 2000

  /** One target. `index` is the key the walk is ordered by; `coordinates` is the
      element's bounds in the root, which the toolkit's layout object would
      report. Every field is immutable: a re-layout builds a new record. */
  datatype ShowcaseProperty = ShowcaseProperty(
    index: int,
    coordinates: Rect,
    title: string,
    titleColor: Color,
    subTitle: string,
    subTitleColor: Color,
    showCaseType: ShowcaseType,
    blurOpacity: real,
    showcaseDelay: int)

  /** A record built with only the required arguments: every optional field
      takes its declared default. */
  function NewProperty(index: int, coordinates: Rect, title: string, subTitle: string): (p: ShowcaseProperty)
    ensures p.index == index && p.coordinates == coordinates
    ensures p.title == title && p.subTitle == subTitle
    ensures p.titleColor == White && p.subTitleColor == White
    ensures p.showCaseType == SimpleRounded
    ensures p.blurOpacity == 0.8 && p.showcaseDelay == 2000
  {
    ShowcaseProperty(index, coordinates, title, White, subTitle, White,
                     DefaultShowcaseType, DefaultBlurOpacity, DefaultShowcaseDelay)
  }

  /** Element key to its latest record. */
  type Registry = map<string, ShowcaseProperty>

  /** An element reporting its position stores a fresh record under its key,
      replacing whatever was there and leaving every other key alone. */
  function Register(reg: Registry, key: string, p: ShowcaseProperty): (r: Registry)
    ensures key in r && r[key] == p
    ensures r.Keys == reg.Keys + {key}
    ensures forall k | k in reg && k != key :: r[k] == reg[k]
  {
    reg[key := p]
  }
}
