/**
  pypartition's platform sanity check (system.py): `normalize_version`, which
  maps a renamed platform's old image names to the new one, and
  `image_file_compatible`, which compares the release named in the running
  system's issue line with the U-Boot version string of the image to flash.

  The regular expressions involved are written out as functions over
  strings; Python's `\w` and `re.I` are taken on ASCII only.  Reading the
  issue file and running `strings` are inputs: the issue file's first line,
  and the output lines of `strings` or `None` when it exits non-zero.
 */
module PyVersion {
  import opened Common

  /** The one translation of `normalize_version`. */
  const OLD_NAME: string := "fby2-gpv2-"
  const NEW_NAME: string := "fbgp2-"

  /** Two characters `re.I` treats as equal. */
  predicate SameIgnoringCase(a: char, b: char) {
    ToLower(a) == ToLower(b)
  }

  /** `p` occurs in `s` at index `i`, ignoring case. */
  predicate MatchesAt(s: string, i: nat, p: string) {
    i + |p| <= |s| && forall k :: 0 <= k < |p| ==> SameIgnoringCase(s[i + k], p[k])
  }

  /** The leftmost index at or after `from` where `p` occurs ignoring case, or -1. */
  function FindIgnoringCase(s: string, p: string, from: nat): (i: int)
    requires from <= |s|
    ensures i == -1 || (from <= i <= |s| && MatchesAt(s, i, p))
    ensures forall j :: from <= j <= |s| && (i == -1 || j < i) ==> !MatchesAt(s, j, p)
    decreases |s| - from
  {
    if MatchesAt(s, from, p) then from
    else if from == |s| then -1
    else FindIgnoringCase(s, p, from + 1)
  }

  /** `p` does not occur in `s` in any case. */
  predicate NoMatch(s: string, p: string) {
    forall j :: 0 <= j <= |s| ==> !MatchesAt(s, j, p)
  }

  /** `i` is the leftmost occurrence of `p` in `s`, ignoring case. */
  predicate FirstMatch(s: string, p: string, i: nat) {
    MatchesAt(s, i, p) && forall j :: 0 <= j < i ==> !MatchesAt(s, j, p)
  }

  /**
    `normalize_version`: `re.sub("fby2-gpv2-", "fbgp2-", version, 1, re.I)`,
    replacing the leftmost occurrence in any case and nothing else.
   */
  function NormalizeVersion(v: string): (r: string)
    ensures NoMatch(v, OLD_NAME) ==> r == v
    ensures forall i: nat :: FirstMatch(v, OLD_NAME, i) ==> r == v[..i] + NEW_NAME + v[i + |OLD_NAME|..]
  {
    var i := FindIgnoringCase(v, OLD_NAME, 0);
    if i < 0 then v else v[..i] + NEW_NAME + v[i + |OLD_NAME|..]
  }

  // ---------------------------------------------------------------------------
  // The two regular expressions
  // ---------------------------------------------------------------------------

  /** `\w` on ASCII. */
  predicate IsWordChar(c: char) {
    IsAlpha(c) || IsDigit(c) || c == '_'
  }

  /** Length of the maximal run of word characters at the start of `s`. */
  function WordRunLength(s: string): (n: nat)
    ensures n <= |s|
    ensures forall k :: 0 <= k < n ==> IsWordChar(s[k])
    ensures n < |s| ==> !IsWordChar(s[n])
  {
    if s != [] && IsWordChar(s[0]) then 1 + WordRunLength(s[1..]) else 0
  }

  const RELEASE_PREFIX: string := "openbmc release "

  /** The group of `re.compile(r"^openbmc release (\w+)", re.I).match(line)`. */
  function Release(line: string): (r: Option<string>)
    ensures r.Some? <==> MatchesAt(line, 0, RELEASE_PREFIX) && |line| > |RELEASE_PREFIX| && IsWordChar(line[|RELEASE_PREFIX|])
    ensures r.Some? ==> |r.value| > 0 && StartsWith(line[|RELEASE_PREFIX|..], r.value)
    ensures r.Some? ==> forall k :: 0 <= k < |r.value| ==> IsWordChar(r.value[k])
    ensures r.Some? ==> |RELEASE_PREFIX| + |r.value| == |line| || !IsWordChar(line[|RELEASE_PREFIX| + |r.value|])
  {
    var n := |RELEASE_PREFIX|;
    if !MatchesAt(line, 0, RELEASE_PREFIX) then None
    else
      var w := WordRunLength(line[n..]);
      if w == 0 then None else Some(line[n..n + w])
  }

  const UBOOT_PREFIX: string := "U-Boot "

  /**
    The group of `U-Boot \d+\.\d+ (\w+)` matched at index `i`.  Each `\d+` is
    followed by a character that is not a digit, so it matches exactly the
    maximal digit run, and the final `\w+` is greedy.
   */
  function UbootAt(s: string, i: nat): (r: Option<string>)
    requires i <= |s|
    ensures r.Some? ==> StartsWith(s[i..], UBOOT_PREFIX) && |r.value| > 0
    ensures r.Some? ==> forall k :: 0 <= k < |r.value| ==> IsWordChar(r.value[k])
  {
    if !StartsWith(s[i..], UBOOT_PREFIX) then None
    else
      var a := i + |UBOOT_PREFIX|;
      var d1 := DigitRunLength(s[a..]);
      if d1 == 0 || a + d1 >= |s| || s[a + d1] != '.' then None
      else
        var b := a + d1 + 1;
        var d2 := DigitRunLength(s[b..]);
        if d2 == 0 || b + d2 >= |s| || s[b + d2] != ' ' then None
        else
          var c := b + d2 + 1;
          var w := WordRunLength(s[c..]);
          if w == 0 then None else Some(s[c..c + w])
  }

  /** `rx.search(s)`: the group of the leftmost match at or after `from`. */
  function SearchUboot(s: string, from: nat): (r: Option<string>)
    requires from <= |s|
    ensures r.Some? <==> exists i :: from <= i <= |s| && UbootAt(s, i).Some?
    ensures r.Some? ==> exists i :: from <= i <= |s| && UbootAt(s, i) == r
                                    && forall j :: from <= j < i ==> UbootAt(s, j).None?
    decreases |s| - from
  {
    if UbootAt(s, from).Some? then UbootAt(s, from)
    else if from == |s| then None
    else
      var r := SearchUboot(s, from + 1);
      assert forall i :: from <= i <= |s| && UbootAt(s, i).Some? ==> i != from;
      r
  }

  /** The U-Boot version group of one `strings` line, after normalisation. */
  function LineVersion(line: string): Option<string> {
    SearchUboot(NormalizeVersion(line), 0)
  }

  /** The version group of every line. */
  function Versions(lines: seq<string>): (vs: seq<Option<string>>)
    ensures |vs| == |lines|
    ensures forall k :: 0 <= k < |lines| ==> vs[k] == LineVersion(lines[k])
  {
    seq(|lines|, k requires 0 <= k < |lines| => LineVersion(lines[k]))
  }

  /** The first group found, scanning the lines in order. */
  function FirstFound(vs: seq<Option<string>>): (r: Option<string>)
    ensures r.None? <==> forall k :: 0 <= k < |vs| ==> vs[k].None?
  {
    if vs == [] then None
    else if vs[0].Some? then vs[0]
    else FirstFound(vs[1..])
  }

  /** The version group of the first `strings` line that has a U-Boot version string. */
  function FirstUbootVersion(lines: seq<string>): (r: Option<string>)
    ensures r.None? <==> forall k :: 0 <= k < |lines| ==> LineVersion(lines[k]).None?
  {
    FirstFound(Versions(lines))
  }

  /**
    `image_file_compatible`: true ("failing open") when the issue line names
    no release or the image has no U-Boot version string, false when
    `strings` fails, and otherwise whether the first version found equals
    the running release.
   */
  function ImageFileCompatible(issueLine: string, strings: Option<seq<string>>): (ok: bool)
    ensures Release(NormalizeVersion(issueLine)).None? ==> ok
    ensures Release(NormalizeVersion(issueLine)).Some? && strings.None? ==> !ok
    ensures Release(NormalizeVersion(issueLine)).Some? && strings.Some? ==>
              (ok <==> FirstUbootVersion(strings.value).None?
                       || FirstUbootVersion(strings.value) == Release(NormalizeVersion(issueLine)))
  {
    var current := Release(NormalizeVersion(issueLine));
    if current.None? then true
    else if strings.None? then false
    else
      var found := FirstUbootVersion(strings.value);
      found.None? || found == current
  }

  // ---------------------------------------------------------------------------
  // Properties
  // ---------------------------------------------------------------------------

  /** The scan returns the group of the first line that has one. */
  lemma {:induction false} FirstFoundAt(vs: seq<Option<string>>, k: nat)
    requires k < |vs| && vs[k].Some?
    requires forall j :: 0 <= j < k ==> vs[j].None?
    ensures FirstFound(vs) == vs[k]
    decreases k
  {
    if k > 0 {
      assert forall j :: 0 <= j < k - 1 ==> vs[1..][j] == vs[j + 1];
      FirstFoundAt(vs[1..], k - 1);
    }
  }

  /** The first line carrying a U-Boot version decides; the lines after it are not looked at. */
  lemma FirstLineDecides(lines: seq<string>, k: nat)
    requires k < |lines|
    requires LineVersion(lines[k]).Some?
    requires forall j :: 0 <= j < k ==> LineVersion(lines[j]).None?
    ensures FirstUbootVersion(lines) == LineVersion(lines[k])
  {
    FirstFoundAt(Versions(lines), k);
  }

  /** An image whose U-Boot string differs from the running release is refused, whatever follows it. */
  lemma MismatchRefused(issueLine: string, lines: seq<string>, k: nat)
    requires k < |lines|
    requires Release(NormalizeVersion(issueLine)).Some?
    requires LineVersion(lines[k]).Some?
    requires LineVersion(lines[k]) != Release(NormalizeVersion(issueLine))
    requires forall j :: 0 <= j < k ==> LineVersion(lines[j]).None?
    ensures !ImageFileCompatible(issueLine, Some(lines))
  {
    FirstLineDecides(lines, k);
  }

  /** A string without a '-' cannot contain the old name and is left as it is. */
  lemma NoOldNameUnchanged(v: string)
    requires forall k :: 0 <= k < |v| ==> v[k] != '-'
    ensures NormalizeVersion(v) == v
  {
    forall j | 0 <= j <= |v|
      ensures !MatchesAt(v, j, OLD_NAME)
    {
      assert MatchesAt(v, j, OLD_NAME) ==> SameIgnoringCase(v[j + 4], OLD_NAME[4]);
    }
    assert NoMatch(v, OLD_NAME);
  }

  /** A version that starts with the old name gets the new name in its place, the rest kept. */
  lemma RenamedPrefix(t: string)
    ensures NormalizeVersion(OLD_NAME + t) == NEW_NAME + t
  {
    var v := OLD_NAME + t;
    assert MatchesAt(v, 0, OLD_NAME);
    assert FirstMatch(v, OLD_NAME, 0);
    assert v[|OLD_NAME|..] == t;
  }
}
