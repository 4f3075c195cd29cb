/**
 The records of the wine dataset and the rows of statistics computed from them.
 */
module Wine {
  import opened Wrappers

  /** A field that arrives either as a JSON number (which may be NaN) or as text that
      still has to be parsed. */
  datatype Reading = Number(x: real) | NotANumber | Text(text: string)

  /** One wine sample. `wineClass` and `alcohol` are held as the text a template
      literal renders them as; they are only ever used to build a group label. */
  datatype WineData = WineData(
    wineClass: string,
    alcohol: string,
    ash: real,
    hue: real,
    magnesium: real,
    flavanoids: Reading)

  /** One column of a statistics table. The mode is `None` where the source's
      `calculateMode` returns `null`. */
  datatype StatsRow = StatsRow(className: string, mean: real, median: real, mode: Option<real>)

  /** The group label `Class {key}`. */
  function ClassName(key: string): string
  {
    "Class " + key
  }

  /** Distinct texts give distinct labels. */
  lemma ClassNameInjective(a: string, b: string)
    ensures ClassName(a) == ClassName(b) <==> a == b
  {
    if ClassName(a) == ClassName(b) {
      assert a == ClassName(a)[6..];
      assert b == ClassName(b)[6..];
    }
  }
}
