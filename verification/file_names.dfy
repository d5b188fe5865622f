/**
  File-name helpers of Util: getExtension and getNameWithoutExtension, taken on the
  name string (what File.getName() returns), and replaceExtension.
 */
module FileNames {
  import opened JavaLang
  import Text

  /** getExtension: the text after the last `.`, or empty when the name has none. */
  function GetExtension(name: string): (ext: string)
    ensures '.' !in ext
    ensures Text.EndsWith(name, ext)
  {
    var index := LastIndexOf(name, '.');
    if index != -1 then name[index + 1..] else ""
  }

  /** getNameWithoutExtension: the text before the last `.`, or the whole name. */
  function GetNameWithoutExtension(name: string): (stem: string)
    ensures stem <= name
    ensures '.' !in name ==> stem == name
  {
    var index := LastIndexOf(name, '.');
    if index == -1 then name else name[..index]
  }

  /**
    The two halves put back together give the name again when it contains a `.`;
    otherwise the extension is empty and the stem is the whole name.
   */
  lemma SplitAtExtension(name: string)
    ensures '.' in name ==> GetNameWithoutExtension(name) + "." + GetExtension(name) == name
    ensures '.' !in name ==> GetExtension(name) == "" && GetNameWithoutExtension(name) == name
  {
    if '.' in name {
      var index := LastIndexOf(name, '.');
      assert name == name[..index] + "." + name[index + 1..];
    }
  }

  /** A name made of just `.` and an extension has that extension and an empty stem. */
  lemma DotFile(ext: string)
    requires '.' !in ext
    ensures GetExtension("." + ext) == ext
    ensures GetNameWithoutExtension("." + ext) == ""
  {
    var name := "." + ext;
    assert name[0] == '.';
    SplitAtExtension(name);
  }

  /**
    replaceExtension(filename, newExtension): cuts at the last `.` and appends
    `"." + newExtension` only when the new extension is not empty.
   */
  function ReplaceExtension(filename: string, newExtension: string): (r: string)
    ensures GetNameWithoutExtension(filename) <= r
  {
    var where := LastIndexOf(filename, '.');
    var stem := if where != -1 then filename[..where] else filename;
    stem + (if Text.IsEmpty(NonNull(newExtension)) then "" else ".") + newExtension
  }

  /**
    A non-empty extension without `.` becomes the extension of the result and the stem
    is kept; an empty one leaves just the stem.
   */
  lemma ReplaceExtensionSplits(filename: string, newExtension: string)
    requires '.' !in newExtension
    ensures |newExtension| > 0 ==> GetExtension(ReplaceExtension(filename, newExtension)) == newExtension
    ensures |newExtension| > 0 ==>
      GetNameWithoutExtension(ReplaceExtension(filename, newExtension)) == GetNameWithoutExtension(filename)
    ensures |newExtension| == 0 ==>
      ReplaceExtension(filename, newExtension) == GetNameWithoutExtension(filename)
  {
    var stem := GetNameWithoutExtension(filename);
    if |newExtension| > 0 {
      var r := ReplaceExtension(filename, newExtension);
      assert r == stem + "." + newExtension;
      assert r[|stem|] == '.' && r[|stem| + 1..] == newExtension;
    } else {
      assert stem + "" + newExtension == stem;
    }
  }

  /** Replacing twice with the same non-empty extension without `.` changes nothing more. */
  lemma ReplaceExtensionIdempotent(filename: string, newExtension: string)
    requires '.' !in newExtension && |newExtension| > 0
    ensures ReplaceExtension(ReplaceExtension(filename, newExtension), newExtension)
         == ReplaceExtension(filename, newExtension)
  {
    ReplaceExtensionSplits(filename, newExtension);
    var once := ReplaceExtension(filename, newExtension);
    assert '.' in once;
  }
}
