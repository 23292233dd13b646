/**
 * The values an expanded iflow artifact is made of (tag, resource types, resources,
 * the artifact itself), the errors its construction can raise, and the abstract
 * environment it is read from: a directory tree and the foreign parsers.
 */
module ArtifactTypes {
  import opened Wrappers

  newtype Byte = b: int | 0 <= b < 256

  type Bytes = seq<Byte>

  /** IflowArtifactTag: the iflow's ID and name, taken from the manifest. */
  datatype Tag = Tag(id: string, name: string)

  /** ArtifactResourceType. */
  datatype ResourceType =
    | GroovyScript
    | JavascriptScript
    | Xsd
    | MessageMapping
    | XsltMapping
    | Iflow
    | JavaArchive
    | Wsdl
    | Edmx
    | OperationMapping

  /** ArtifactResource: one classified file of the artifact. */
  datatype Resource = Resource(tag: Tag, resourceType: ResourceType, name: string, content: Bytes)

  /** The parsed iflow document, recorded by the bytes it was parsed from. */
  datatype IflowXml = IflowXml(source: Bytes)

  /** The immutable artifact: its tag, its resources by type and its iflow document. */
  datatype Artifact = Artifact(tag: Tag, resources: map<ResourceType, seq<Resource>>, iflowXml: IflowXml)

  /** Every way building or querying an artifact can fail. */
  datatype Error =
    | ReadFailed(path: string)   // IOException: the file is missing or cannot be read as a file
    | ManifestMalformed          // IOException from the manifest parser
    | NameHeaderMissing          // manifest has no Bundle-Name
    | IdHeaderMissing            // manifest has no Bundle-SymbolicName
    | EmptyId                    // Bundle-SymbolicName is empty
    | MalformedId                // Bundle-SymbolicName splits into 0 or more than 2 tokens
    | IflowDirectoryMissing      // the iflow directory cannot be listed (requireNonNull)
    | IflowNotUnique             // the iflow directory does not hold exactly one .iflw file
    | ParametersMalformed        // parameters.prop cannot be loaded as properties
    | TransformFailed            // the external-parameters stylesheet failed
    | TrailingSlash              // a resource path ends in a slash
    | ResourceTypeNotFound       // lookup of a type the artifact has no entry for

  /** One entry of a directory listing; body None means it exists but cannot be read as a file. */
  datatype Entry = Entry(name: string, body: Option<Bytes>)

  /**
   * An expanded artifact on disk: its root path, and the listing of every directory
   * that can be listed, keyed by its path relative to the root, in listing order.
   */
  datatype Package = Package(root: string, dirs: map<string, seq<Entry>>)

  /** Manifest main attributes, keyed by header name. */
  type Headers = map<string, string>

  /** The externalized parameters, as loaded from parameters.prop. */
  type Params = map<string, string>

  /**
   * The foreign code the artifact reader calls: the jar manifest parser, the
   * properties loader and the external-parameters stylesheet; None is a failure.
   */
  datatype Collaborators = Collaborators(
    parseManifest: Bytes -> Option<Headers>,
    loadProperties: Bytes -> Option<Params>,
    transform: (Bytes, Params) -> Option<Bytes>)

  /** The listing of dir, or None when it cannot be listed (File.listFiles returns null). */
  function ListFiles(pkg: Package, dir: string): (files: Option<seq<Entry>>)
    ensures files.Some? <==> dir in pkg.dirs
  {
    if dir in pkg.dirs then Some(pkg.dirs[dir]) else None
  }

  /** The absolute path of the entry called name in dir. */
  function PathOf(root: string, dir: string, name: string): string {
    root + "/" + dir + "/" + name
  }

  /** The first entry of listing called name. */
  function Find(listing: seq<Entry>, name: string): (found: Option<Entry>)
    ensures found.Some? <==> exists e :: e in listing && e.name == name
    ensures found.Some? ==> found.value in listing && found.value.name == name
  {
    if listing == [] then None
    else if listing[0].name == name then Some(listing[0])
    else Find(listing[1..], name)
  }

  /** Files.exists on dir/name. */
  predicate Exists(pkg: Package, dir: string, name: string) {
    dir in pkg.dirs && Find(pkg.dirs[dir], name).Some?
  }

  /** Reading all bytes of a listed entry. */
  function ReadFile(path: string, e: Entry): (r: Result<Bytes, Error>)
    ensures r.Ok? <==> e.body.Some?
    ensures r.Ok? ==> r.value == e.body.value
    ensures r.Err? ==> r.error == ReadFailed(path)
  {
    if e.body.Some? then Ok(e.body.value) else Err(ReadFailed(path))
  }

  /** Files.newInputStream(root/dir/name).readAllBytes(). */
  function ReadNamed(pkg: Package, dir: string, name: string): (r: Result<Bytes, Error>)
    ensures r.Ok? ==> Exists(pkg, dir, name) && Find(pkg.dirs[dir], name).value.body == Some(r.value)
    ensures !Exists(pkg, dir, name) ==> r == Err(ReadFailed(PathOf(pkg.root, dir, name)))
  {
    var path := PathOf(pkg.root, dir, name);
    if !Exists(pkg, dir, name) then Err(ReadFailed(path))
    else ReadFile(path, Find(pkg.dirs[dir], name).value)
  }
}
