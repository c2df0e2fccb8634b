/** File-name handling of the viewer: the lower-casing used to pick a load
    path, suffix tests, and the rename of an `.ifc` download to `.frag`.
    A `char` is one Unicode scalar value, while JavaScript strings count
    UTF-16 code units; only the ASCII capitals `A`-`Z` have a lower-case
    partner in this model. */
module Text {

  predicate IsCapital(c: char) {
    'A' <= c <= 'Z'
  }

  /** The lower-case partner of an ASCII capital; any other character is its own. */
  function LowerChar(c: char): char {
    if IsCapital(c) then (c as int - 'A' as int + 'a' as int) as char else c
  }

  /** `String.prototype.toLowerCase`, character by character. */
  function ToLower(s: string): (r: string)
    ensures |r| == |s|
    ensures forall i :: 0 <= i < |s| ==> r[i] == LowerChar(s[i])
  {
    seq(|s|, i requires 0 <= i < |s| => LowerChar(s[i]))
  }

  /** `String.prototype.endsWith`. */
  predicate EndsWith(s: string, suffix: string) {
    |suffix| <= |s| && s[|s| - |suffix|..] == suffix
  }

  /** Whether the regular expression `/\.ifc$/i` matches `name`: a literal dot
      followed by `i`, `f`, `c` in either case, at the very end of the name. */
  predicate MatchesIfcSuffix(name: string) {
    var n := |name|;
    && n >= 4
    && name[n - 4] == '.'
    && name[n - 3] in "iI"
    && name[n - 2] in "fF"
    && name[n - 1] in "cC"
  }

  /** `name.replace(/\.ifc$/i, ".frag")`: the last four characters are replaced
      when they spell `.ifc` in any case; otherwise the name is returned as is. */
  function IfcToFragName(name: string): (r: string)
    ensures MatchesIfcSuffix(name) ==>
      && |r| == |name| + 1
      && r[..|name| - 4] == name[..|name| - 4]
      && EndsWith(r, ".frag")
    ensures !MatchesIfcSuffix(name) ==> r == name
    ensures !MatchesIfcSuffix(r)
  {
    if MatchesIfcSuffix(name) then name[..|name| - 4] + ".frag" else name
  }

  /** Lower-casing leaves no capital behind and lower-casing twice changes nothing. */
  lemma ToLowerIdempotent(s: string)
    ensures forall i :: 0 <= i < |s| ==> !IsCapital(ToLower(s)[i])
    ensures ToLower(ToLower(s)) == ToLower(s)
  {
  }

  /** `endsWith` agrees with the algebraic reading "the string is some prefix
      followed by the suffix". */
  lemma EndsWithIsConcatenation(s: string, suffix: string)
    ensures EndsWith(s, suffix) <==> exists p :: s == p + suffix
  {
    if EndsWith(s, suffix) {
      var p := s[..|s| - |suffix|];
      assert s == p + suffix;
    }
    if p :| s == p + suffix {
      assert s[|s| - |suffix|..] == suffix;
    }
  }

  lemma LowerCharIsLetter(c: char, lower: char, upper: char)
    requires 'a' <= lower <= 'z' && upper as int == lower as int - 'a' as int + 'A' as int
    ensures LowerChar(c) == lower <==> c == lower || c == upper
  {
  }

  /** The dispatch test `name.toLowerCase().endsWith(".ifc")` holds exactly when
      the rename's regular expression matches, so every file sent down the IFC
      path gets its suffix rewritten. */
  lemma {:induction false} IfcDispatchMatchesRegex(name: string)
    ensures EndsWith(ToLower(name), ".ifc") <==> MatchesIfcSuffix(name)
  {
    var n := |name|;
    if n >= 4 {
      var lower := ToLower(name);
      var last := lower[n - 4..];
      assert last == ".ifc" <==> last[0] == '.' && last[1] == 'i' && last[2] == 'f' && last[3] == 'c';
      assert last[0] == LowerChar(name[n - 4]) && last[1] == LowerChar(name[n - 3]);
      assert last[2] == LowerChar(name[n - 2]) && last[3] == LowerChar(name[n - 1]);
      LowerCharIsLetter(name[n - 3], 'i', 'I');
      LowerCharIsLetter(name[n - 2], 'f', 'F');
      LowerCharIsLetter(name[n - 1], 'c', 'C');
    }
  }

  /** Lower-casing keeps a suffix that has no capitals. */
  lemma {:induction false} EndsWithLowered(s: string, suffix: string)
    requires EndsWith(s, suffix)
    requires forall i :: 0 <= i < |suffix| ==> !IsCapital(suffix[i])
    ensures EndsWith(ToLower(s), suffix)
  {
    var k := |s| - |suffix|;
    forall i | 0 <= i < |suffix|
      ensures ToLower(s)[k..][i] == suffix[i]
    {
      assert ToLower(s)[k + i] == LowerChar(s[k + i]);
      assert s[k + i] == s[k..][i] == suffix[i];
    }
  }

  /** A name ending in `.frag` still ends in `.frag` once lower-cased. */
  lemma FragSuffixLowered(s: string)
    requires EndsWith(s, ".frag")
    ensures EndsWith(ToLower(s), ".frag")
  {
    var frag := ".frag";
    assert frag[0] == '.' && frag[1] == 'f' && frag[2] == 'r' && frag[3] == 'a' && frag[4] == 'g';
    EndsWithLowered(s, frag);
  }

  /** No name ends in both `.frag` and `.ifc`, so the order of the two tests
      in the dispatch never matters. */
  lemma FragAndIfcSuffixesExclusive(s: string)
    ensures !(EndsWith(s, ".frag") && EndsWith(s, ".ifc"))
  {
    assert EndsWith(s, ".frag") ==> s[|s| - 1] == s[|s| - 5..][4] == 'g';
    assert EndsWith(s, ".ifc") ==> s[|s| - 1] == s[|s| - 4..][3] == 'c';
  }

  /** Replacing an `.ifc` suffix, in any case, keeps the stem in front of it. */
  lemma RenameKeepsStem(stem: string, ext: string)
    requires |ext| == 4 && ext[0] == '.' && ext[1] in "iI" && ext[2] in "fF" && ext[3] in "cC"
    ensures IfcToFragName(stem + ext) == stem + ".frag"
  {
    var name := stem + ext;
    assert name[|stem|..] == ext;
    assert name[..|stem|] == stem;
  }

  /** Examples: `Tower.IFC` downloads as `Tower.frag`, and a name whose
      `.ifc` is not at the end keeps its name. */
  lemma RenameExamples()
    ensures IfcToFragName("Tower.IFC") == "Tower.frag"
    ensures IfcToFragName("model.ifc") == "model.frag"
    ensures IfcToFragName("plan.ifc.bak") == "plan.ifc.bak"
  {
    TowerRename();
    ModelRename();
    var plan := "plan.ifc.bak";
    assert plan[11] == 'k';
    assert !MatchesIfcSuffix(plan);
  }

  lemma TowerRename()
    ensures IfcToFragName("Tower.IFC") == "Tower.frag"
  {
    var stem, ext := "Tower", ".IFC";
    assert ext[0] == '.' && ext[1] == 'I' && ext[2] == 'F' && ext[3] == 'C';
    RenameKeepsStem(stem, ext);
    assert stem + ext == "Tower.IFC";
    assert stem + ".frag" == "Tower.frag";
  }

  lemma ModelRename()
    ensures IfcToFragName("model.ifc") == "model.frag"
  {
    var stem, ext := "model", ".ifc";
    assert ext[0] == '.' && ext[1] == 'i' && ext[2] == 'f' && ext[3] == 'c';
    RenameKeepsStem(stem, ext);
    assert stem + ext == "model.ifc";
    assert stem + ".frag" == "model.frag";
  }
}
