/** The view nodes read back from the device's view-hierarchy snapshot: each node has an
    identifier, a text and an ordered list of child nodes. */
module Views {

  datatype View = View(id: string, text: string, children: seq<View>)

  /** Python's `str.endswith`. */
  predicate EndsWith(s: string, suffix: string)
  {
    |suffix| <= |s| && s[|s| - |suffix|..] == suffix
  }
}
