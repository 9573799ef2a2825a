/**
 * What the plugin reads from the host editor: selection regions, the text
 * they cover, and the package settings (`GlueSublimeText` in Glue.py).
 */
module SublimeText {
  import opened Python

  /**
   * A selection region. The two ends may come in either order (a selection
   * made backwards has `a > b`); `begin()` and `end()` order them.
   */
  datatype Region = Region(a: nat, b: nat) {
    function Begin(): nat { if a < b then a else b }
    function End(): nat { if a < b then b else a }
    predicate Empty() { a == b }
  }

  /** The region lies within a buffer holding `text`. */
  predicate InView(text: string, r: Region) {
    r.End() <= |text|
  }

  /** Every region of the selection lies within the buffer. */
  predicate AllInView(text: string, sel: seq<Region>) {
    forall i :: 0 <= i < |sel| ==> InView(text, sel[i])
  }

  /** `view.substr(region)`: the text the region covers. */
  function Substr(text: string, r: Region): (s: string)
    requires InView(text, r)
    ensures |s| == r.End() - r.Begin()
    ensures s == [] <==> r.Empty()
    ensures forall k :: 0 <= k < |s| ==> s[k] == text[r.Begin() + k]
  {
    text[r.Begin()..r.End()]
  }

  /** The package settings file: keys to the values stored under them. */
  type Settings = map<string, Value>

  /**
   * `GlueSublimeText.packageSetting(key)`: the stored value when the key is
   * present, `False` when it is absent.
   */
  function PackageSetting(settings: Settings, key: string): (v: Value)
    ensures key in settings ==> v == settings[key]
    ensures key !in settings ==> v == Bool(false)
  {
    if key in settings then settings[key] else Bool(false)
  }

  /**
   * A setting reads as falsy exactly when it is absent or stored falsy: the
   * caller cannot tell a missing key from one stored as `False`.
   */
  lemma PackageSettingFalsy(settings: Settings, key: string)
    ensures !Truthy(PackageSetting(settings, key)) <==> key !in settings || !Truthy(settings[key])
  {
  }
}
