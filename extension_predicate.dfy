/**
 * ExtensionPredicate: a Predicate<File> that accepts a non-null file whose final
 * name component ends with a fixed extension, compared case-sensitively, and the
 * Predicate.or combination of such predicates used by the artifact reader.
 */
module ExtensionPredicates {
  import opened Wrappers
  import opened JavaString

  /** A java.io.File, reduced to its (normalised) path string with '/' as separator. */
  datatype File = File(path: string)

  /** File.getName(): everything after the last separator of the path. */
  function GetName(f: File): (name: string)
    ensures '/' !in name
    ensures EndsWith(f.path, name)
    ensures |name| == |f.path| || f.path[|f.path| - |name| - 1] == '/'
  {
    f.path[LastIndexOf(f.path, '/') + 1..]
  }

  /** A file predicate: one ExtensionPredicate, or the Predicate.or of two predicates. */
  datatype FilePredicate =
    | Extension(extension: string)
    | Or(left: FilePredicate, right: FilePredicate)

  /** Predicate.test on a possibly-null file: a null file is rejected by every predicate. */
  predicate Test(p: FilePredicate, file: Option<File>)
    ensures Test(p, file) ==> file.Some?
  {
    match p
    case Extension(extension) => file.Some? && EndsWith(GetName(file.value), extension)
    case Or(left, right) => Test(left, file) || Test(right, file)
  }

  /** For a non-null file, an extension predicate holds exactly when the file name is some text followed by the extension. */
  lemma TestExtensionIff(extension: string, f: File)
    ensures Test(Extension(extension), Some(f)) <==> exists prefix :: GetName(f) == prefix + extension
  {
    EndsWithIffConcat(GetName(f), extension);
  }

  /** The empty extension matches every non-null file. */
  lemma TestEmptyExtension(f: File)
    ensures Test(Extension(""), Some(f))
  {
    var name := GetName(f);
    assert name[|name|..] == "";
  }

  /** The name of dir/name is name: directories before the final separator are ignored. */
  lemma GetNameOfChild(dir: string, name: string)
    requires '/' !in name
    ensures GetName(File(dir + "/" + name)) == name
  {
    var path := dir + "/" + name;
    assert path[|dir|] == '/';
    assert forall j :: |dir| < j < |path| ==> path[j] == name[j - |dir| - 1];
    assert LastIndexOf(path, '/') == |dir|;
    assert path[|dir| + 1..] == name;
  }

  /** Only the final name component is examined: the same name under any two directories is treated alike. */
  lemma {:induction false} TestIgnoresDirectory(p: FilePredicate, dir1: string, dir2: string, name: string)
    requires '/' !in name
    ensures Test(p, Some(File(dir1 + "/" + name))) == Test(p, Some(File(dir2 + "/" + name)))
  {
    GetNameOfChild(dir1, name);
    GetNameOfChild(dir2, name);
    match p
    case Extension(_) =>
    case Or(left, right) =>
      TestIgnoresDirectory(left, dir1, dir2, name);
      TestIgnoresDirectory(right, dir1, dir2, name);
  }

  /** The comparison is case-sensitive: "Schema.XSD" is not an ".xsd" file. */
  lemma TestIsCaseSensitive()
    ensures !Test(Extension(".xsd"), Some(File("Schema.XSD")))
  {
    assert GetName(File("Schema.XSD")) == "Schema.XSD";
    assert "Schema.XSD"[6..] == ".XSD";
  }

  /** A directory whose name carries the extension does not make the files inside it match. */
  lemma TestIgnoresDirectoryExtension()
    ensures !Test(Extension(".iflw"), Some(File("flows.iflw/readme.txt")))
  {
    GetNameOfChild("flows.iflw", "readme.txt");
    assert "readme.txt"[6..] != ".iflw";
  }
}
