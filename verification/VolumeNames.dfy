/** How a range finds its volume: the path of a volume is matched with the name its source is stored under
    (`buildStoredRarSpans`, `reconstructStoredRarRanges`), on ASCII. */
module VolumeNames {
  import opened Text
  import opened StoredRar

  /** What is left of the path without the white space around it is the name, up to the case of letters. */
  ghost predicate Named(path: string, name: string) {
    exists a: nat, b: nat :: NamedAt(path, a, b, name)
  }

  ghost predicate NamedAt(path: string, a: nat, b: nat, name: string) {
    CoreAt(path, a, b) && SameLetters(path[a..b], name)
  }

  /** A name as sources are stored under: in lower case, with no white space around it. */
  predicate StoredName(name: string) {
    && (forall i | 0 <= i < |name| :: !Upper(name[i]))
    && (name != "" ==> !Blank(name[0]) && !Blank(name[|name| - 1]))
  }

  /** A volume's key is the core of its path in lower case. */
  lemma KeyIs(path: string, a: nat, b: nat)
    requires CoreAt(path, a, b)
    ensures StoredName(VolumeKey(path)) && SameLetters(path[a..b], VolumeKey(path))
  {
    TrimIs(path, a, b);
  }

  /** Two paths have the same key if and only if their cores agree letter by letter, up to case. */
  lemma KeysEqualExactly(p: string, a: nat, b: nat, q: string, c: nat, d: nat)
    requires CoreAt(p, a, b) && CoreAt(q, c, d)
    ensures VolumeKey(p) == VolumeKey(q) <==> SameLetters(p[a..b], q[c..d])
  {
    TrimIs(p, a, b);
    TrimIs(q, c, d);
    LowerEqualExactly(p[a..b], q[c..d]);
  }

  /** A name in stored form is its own key, and every key is in that form. */
  lemma KeyIsStored(path: string)
    ensures StoredName(VolumeKey(path)) && VolumeKey(VolumeKey(path)) == VolumeKey(path)
    ensures StoredName(path) ==> VolumeKey(path) == path
  {
    var a, b := CoreOf(path);
    KeyIs(path, a, b);
    StoredIsKey(VolumeKey(path));
    if StoredName(path) {
      StoredIsKey(path);
    }
  }

  lemma StoredIsKey(name: string)
    requires StoredName(name)
    ensures VolumeKey(name) == name
  {
    TrimIs(name, 0, |name|);
    assert name[0..|name|] == name;
  }

  /** A path finds the source stored under a name if and only if it is that name up to case and surrounding
      white space. */
  lemma FindsExactly(path: string, name: string)
    requires StoredName(name)
    ensures VolumeKey(path) == name <==> Named(path, name)
  {
    StoredIsKey(name);
    if VolumeKey(path) == name {
      var a, b := CoreOf(path);
      KeyIs(path, a, b);
      assert NamedAt(path, a, b, name);
    }
    if Named(path, name) {
      var a: nat, b: nat :| NamedAt(path, a, b, name);
      KeysEqualExactly(path, a, b, name, 0, |name|);
      assert name[0..|name|] == name;
    }
  }
}
