/** The file-name rule of the save action: `.xml` is appended unless the chosen name
    already ends with it, compared without regard to case. */
module SaveName {

  /** `str.lower()` on one character, for the ASCII range. */
  function LowerChar(c: char): (d: char)
    ensures 'A' <= c <= 'Z' ==> d as int == c as int + 32
    ensures !('A' <= c <= 'Z') ==> d == c
  {
    if 'A' <= c <= 'Z' then (c as int + 32) as char else c
  }

  /** `str.lower()`, character by character. */
  function Lower(s: string): (r: string)
    ensures |r| == |s|
    ensures forall i | 0 <= i < |s| :: r[i] == LowerChar(s[i])
  {
    seq(|s|, i requires 0 <= i < |s| => LowerChar(s[i]))
  }

  /** `str.endswith(suffix)`: the last `|suffix|` characters of `s` are `suffix`. */
  predicate EndsWith(s: string, suffix: string): (b: bool)
    ensures b <==> |suffix| <= |s| &&
                   forall i | 0 <= i < |suffix| :: s[|s| - |suffix| + i] == suffix[i]
  {
    |suffix| <= |s| && s[|s| - |suffix|..] == suffix
  }

  /** The name ends with `.xml` in any mix of upper and lower case: its last four
      characters lower-case to `.xml`. */
  predicate HasXmlExtension(name: string): (b: bool)
    ensures b <==> 4 <= |name| && Lower(name[|name| - 4..]) == ".xml"
  {
    assert 4 <= |name| ==> Lower(name)[|name| - 4..] == Lower(name[|name| - 4..]);
    EndsWith(Lower(name), ".xml")
  }

  /** The file name `save_xml` writes to. */
  function WithXmlExtension(name: string): (r: string)
    ensures HasXmlExtension(r)
    ensures HasXmlExtension(name) ==> r == name
    ensures !HasXmlExtension(name) ==> r == name + ".xml"
  {
    if !HasXmlExtension(name) then LowerAppend(name, ".xml"); name + ".xml" else name
  }

  /** Lower-casing distributes over concatenation; `.xml` is already lower case. */
  lemma LowerAppend(s: string, t: string)
    requires Lower(t) == t
    ensures Lower(s + t) == Lower(s) + t
  {
    assert Lower(s + t) == Lower(s) + Lower(t);
  }

  /** Applying the rule twice is applying it once. */
  lemma WithXmlExtensionIdempotent(name: string)
    ensures WithXmlExtension(WithXmlExtension(name)) == WithXmlExtension(name)
  {
  }

  /** The rule only ever appends: the chosen name is a prefix of the result, and the
      result is at most four characters longer. */
  lemma WithXmlExtensionExtends(name: string)
    ensures |name| <= |WithXmlExtension(name)| <= |name| + 4
    ensures WithXmlExtension(name)[..|name|] == name
  {
  }
}
