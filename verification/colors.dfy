/**
 * The colour schemes of src/colors.rs: a fixed table of named palettes of
 * five "#rrggbb" colours each, the lookup of a colour by shade index, the
 * lookup of a scheme by name and the default scheme.
 */
module Colors {
  import opened Wrappers

  /** `[&'static str; 5]`: exactly five colours, the one for no contributions first. */
  type Palette = s: seq<string> | |s| == 5 witness ["", "", "", "", ""]

  datatype ColorScheme = ColorScheme(name: string, colors: Palette)

  const GITHUB: ColorScheme := ColorScheme("github", ["#eeeeee", "#2ea043", "#3fb950", "#50d05d", "#a1f1a8"])
  const HALLOWEEN: ColorScheme := ColorScheme("halloween", ["#eeeeee", "#04001b", "#ff9711", "#ffc722", "#fdf156"])
  const AMBER: ColorScheme := ColorScheme("amber", ["#eeeeee", "#ff6f00", "#ffb300", "#ffd54f", "#ffecb3"])
  const BLUE: ColorScheme := ColorScheme("blue", ["#eeeeee", "#0d47a1", "#1e88e5", "#64b5f6", "#bbdefb"])
  const BLUEGREY: ColorScheme := ColorScheme("bluegrey", ["#eeeeee", "#263238", "#546e7a", "#90a4ae", "#cfd8dc"])
  const BROWN: ColorScheme := ColorScheme("brown", ["#eeeeee", "#3e2723", "#6d4c41", "#a1887f", "#d7ccc8"])
  const CYAN: ColorScheme := ColorScheme("cyan", ["#eeeeee", "#006064", "#00acc1", "#4dd0e1", "#b2ebf2"])
  const DEEPORANGE: ColorScheme := ColorScheme("deeporange", ["#eeeeee", "#bf360c", "#f4511e", "#ff8a65", "#ffccbc"])
  const DEEPPURPLE: ColorScheme := ColorScheme("deeppurple", ["#eeeeee", "#311b92", "#5e35b1", "#9575cd", "#d1c4e9"])
  const GREEN: ColorScheme := ColorScheme("green", ["#eeeeee", "#1b5e20", "#43a047", "#81c784", "#c8e6c9"])
  const GREY: ColorScheme := ColorScheme("grey", ["#eeeeee", "#212121", "#616161", "#9e9e9e", "#e0e0e0"])
  const INDIGO: ColorScheme := ColorScheme("indigo", ["#eeeeee", "#1a237e", "#3949ab", "#7986cb", "#c5cae9"])
  const LIGHTBLUE: ColorScheme := ColorScheme("lightblue", ["#eeeeee", "#01579b", "#039be5", "#4fc3f7", "#b3e5fc"])
  const LIGHTGREEN: ColorScheme := ColorScheme("lightgreen", ["#eeeeee", "#33691e", "#7cb342", "#aed581", "#dcedc8"])
  const LIME: ColorScheme := ColorScheme("lime", ["#eeeeee", "#827717", "#c0ca33", "#dce775", "#f0f4c3"])
  const ORANGE: ColorScheme := ColorScheme("orange", ["#eeeeee", "#e65100", "#fb8c00", "#ffb74d", "#ffe0b2"])
  const PINK: ColorScheme := ColorScheme("pink", ["#eeeeee", "#880e4f", "#e91e63", "#f06292", "#f8bbd0"])
  const PURPLE: ColorScheme := ColorScheme("purple", ["#eeeeee", "#4a148c", "#8e24aa", "#ba68c8", "#e1bee7"])
  const RED: ColorScheme := ColorScheme("red", ["#eeeeee", "#b71c1c", "#e53935", "#e57373", "#ffcdd2"])
  const TEAL: ColorScheme := ColorScheme("teal", ["#eeeeee", "#004d40", "#00897b", "#4db6ac", "#b2dfdb"])
  const YELLOW: ColorScheme := ColorScheme("yellow", ["#eeeeee", "#f57f17", "#ffd835", "#fff176", "#fff9c4"])
  const MOON: ColorScheme := ColorScheme("moon", ["#eeeeee", "#4f2266", "#48009a", "#00a1f3", "#6bcdff"])
  const PSYCHEDELIC: ColorScheme := ColorScheme("psychedelic", ["#eeeeee", "#ff00ab", "#fa3fbc", "#fb6dcc", "#faafe1"])

  /** `SCHEMES`, in the order of the table. */
  const SCHEMES: seq<ColorScheme> := [
    GITHUB, HALLOWEEN, AMBER, BLUE, BLUEGREY,
    BROWN, CYAN, DEEPORANGE, DEEPPURPLE, GREEN,
    GREY, INDIGO, LIGHTBLUE, LIGHTGREEN, LIME,
    ORANGE, PINK, PURPLE, RED, TEAL,
    YELLOW, MOON, PSYCHEDELIC
  ]

  /** `get_color`: the colour at `index`, or the first colour when `index` is past the end. */
  function GetColor(scheme: ColorScheme, index: nat): (c: string)
    ensures c in scheme.colors
    ensures index < 5 ==> c == scheme.colors[index]
    ensures index >= 5 ==> c == scheme.colors[0]
  {
    if index < |scheme.colors| then scheme.colors[index] else scheme.colors[0]
  }

  /** `k` is the first position of `schemes` whose name is `name`. */
  predicate IsFirstNamed(schemes: seq<ColorScheme>, name: string, k: int)
  {
    0 <= k < |schemes| && schemes[k].name == name &&
    forall j :: 0 <= j < k ==> schemes[j].name != name
  }

  /** `iter().find(|scheme| scheme.name == name)` over `schemes`. */
  function FindIn(schemes: seq<ColorScheme>, name: string): (r: Option<ColorScheme>)
    ensures r.Some? ==> r.value in schemes && r.value.name == name
    ensures r.None? <==> forall k :: 0 <= k < |schemes| ==> schemes[k].name != name
  {
    if schemes == [] then None
    else if schemes[0].name == name then Some(schemes[0])
    else FindIn(schemes[1..], name)
  }

  /** The scheme found is the first one with that name. */
  lemma {:induction false} FindInFirst(schemes: seq<ColorScheme>, name: string, k: int)
    requires IsFirstNamed(schemes, name, k)
    ensures FindIn(schemes, name) == Some(schemes[k])
  {
    if k > 0 {
      assert IsFirstNamed(schemes[1..], name, k - 1) by {
        forall j | 0 <= j < k - 1 ensures schemes[1..][j].name != name {
          assert schemes[1..][j] == schemes[j + 1];
        }
      }
      FindInFirst(schemes[1..], name, k - 1);
    }
  }

  /** `find_by_name`: the first scheme of the table with that name, if any. */
  function FindByName(name: string): (r: Option<ColorScheme>)
    ensures r.Some? ==> r.value in SCHEMES && r.value.name == name
    ensures r.None? <==> forall k :: 0 <= k < |SCHEMES| ==> SCHEMES[k].name != name
  {
    FindIn(SCHEMES, name)
  }

  /** `default`: the first scheme of the table, "github". */
  function Default(): (s: ColorScheme)
    ensures s.name == "github" && s in SCHEMES
  {
    SCHEMES[0]
  }

  /** No two schemes of the table share a name. */
  lemma DistinctNames()
    ensures forall j, k :: 0 <= j < k < |SCHEMES| ==> SCHEMES[j].name != SCHEMES[k].name
  {
  }

  /** Looking a scheme of the table up by its own name finds that very scheme. */
  lemma FindByNameInverse(k: int)
    requires 0 <= k < |SCHEMES|
    ensures FindByName(SCHEMES[k].name) == Some(SCHEMES[k])
  {
    DistinctNames();
    FindInFirst(SCHEMES, SCHEMES[k].name, k);
  }

  /** The first colour of every scheme, for no contributions, is "#eeeeee". */
  lemma FirstColorIsBlank(k: int)
    requires 0 <= k < |SCHEMES|
    ensures GetColor(SCHEMES[k], 0) == "#eeeeee"
  {
  }

  predicate IsLowerHexDigit(ch: char)
  {
    '0' <= ch <= '9' || 'a' <= ch <= 'f'
  }

  /** A '#' followed by six lower-case hexadecimal digits. */
  predicate IsHexColor(c: string)
  {
    |c| == 7 && c[0] == '#' &&
    IsLowerHexDigit(c[1]) && IsLowerHexDigit(c[2]) && IsLowerHexDigit(c[3]) &&
    IsLowerHexDigit(c[4]) && IsLowerHexDigit(c[5]) && IsLowerHexDigit(c[6])
  }


  /** All five colours of a palette are written "#rrggbb". */
  predicate IsHexPalette(colors: Palette)
  {
    IsHexColor(colors[0]) && IsHexColor(colors[1]) && IsHexColor(colors[2]) &&
    IsHexColor(colors[3]) && IsHexColor(colors[4])
  }

  // The table is checked two schemes at a time, which keeps each proof small.

  lemma HexGroup0()
    ensures IsHexPalette(GITHUB.colors) && IsHexPalette(HALLOWEEN.colors)
  {
  }

  lemma HexGroup1()
    ensures IsHexPalette(AMBER.colors) && IsHexPalette(BLUE.colors)
  {
  }

  lemma HexGroup2()
    ensures IsHexPalette(BLUEGREY.colors) && IsHexPalette(BROWN.colors)
  {
  }

  lemma HexGroup3()
    ensures IsHexPalette(CYAN.colors) && IsHexPalette(DEEPORANGE.colors)
  {
  }

  lemma HexGroup4()
    ensures IsHexPalette(DEEPPURPLE.colors) && IsHexPalette(GREEN.colors)
  {
  }

  lemma HexGroup5()
    ensures IsHexPalette(GREY.colors) && IsHexPalette(INDIGO.colors)
  {
  }

  lemma HexGroup6()
    ensures IsHexPalette(LIGHTBLUE.colors) && IsHexPalette(LIGHTGREEN.colors)
  {
  }

  lemma HexGroup7()
    ensures IsHexPalette(LIME.colors) && IsHexPalette(ORANGE.colors)
  {
  }

  lemma HexGroup8()
    ensures IsHexPalette(PINK.colors) && IsHexPalette(PURPLE.colors)
  {
  }

  lemma HexGroup9()
    ensures IsHexPalette(RED.colors) && IsHexPalette(TEAL.colors)
  {
  }

  lemma HexGroup10()
    ensures IsHexPalette(YELLOW.colors) && IsHexPalette(MOON.colors)
  {
  }

  lemma HexGroup11()
    ensures IsHexPalette(PSYCHEDELIC.colors)
  {
  }

  /** Every colour of the table is written "#rrggbb". */
  lemma HexColors(k: int, i: int)
    requires 0 <= k < |SCHEMES| && 0 <= i < 5
    ensures IsHexColor(SCHEMES[k].colors[i])
  {
    if k < 12 {
      HexColorsFirstHalf(k);
    } else {
      HexColorsSecondHalf(k);
    }
  }

  lemma HexColorsFirstHalf(k: int)
    requires 0 <= k < 12
    ensures IsHexPalette(SCHEMES[k].colors)
  {
    HexGroup0();
    HexGroup1();
    HexGroup2();
    HexGroup3();
    HexGroup4();
    HexGroup5();
  }

  lemma HexColorsSecondHalf(k: int)
    requires 12 <= k < |SCHEMES|
    ensures IsHexPalette(SCHEMES[k].colors)
  {
    HexGroup6();
    HexGroup7();
    HexGroup8();
    HexGroup9();
    HexGroup10();
    HexGroup11();
  }
}
