/**
 * ExpandedZipArchiveIflowArtifact: builds an iflow artifact from an expanded
 * integration-flow package on disk. The tag comes from the manifest, the flow
 * document from the single .iflw file, and the resources from a fixed table of
 * (type, directory, file predicate) rows; the .iflw resource carries the
 * external-parameters transform of the flow when parameters.prop exists.
 */
module ExpandedZipArchiveIflowArtifact {
  import opened Wrappers
  import opened JavaString
  import opened ExtensionPredicates
  import opened ArtifactTypes

  const ManifestDir := "META-INF"
  const ManifestName := "MANIFEST.MF"
  const NameManifestHeader := "Bundle-Name"
  const IdManifestHeader := "Bundle-SymbolicName"
  const ResourcesBase := "src/main/resources"
  const ParametersName := "parameters.prop"
  const IflowDir := ResourcesBase + "/scenarioflows/integrationflow"
  const ScriptDir := ResourcesBase + "/script"
  const XsdDir := ResourcesBase + "/xsd"
  const MappingDir := ResourcesBase + "/mapping"
  const LibDir := ResourcesBase + "/lib"
  const WsdlDir := ResourcesBase + "/wsdl"
  const EdmxDir := ResourcesBase + "/edmx"

  const IflowPredicate := Extension(".iflw")

  // ---------------------------------------------------------------------------
  // Manifest: tag and ID
  // ---------------------------------------------------------------------------

  /**
   * The iflow ID from the Bundle-SymbolicName value: the value must be non-empty and
   * split on ';' into one or two tokens; the first token is the ID, untrimmed.
   */
  function ExtractId(manifestValue: string): (r: Result<string, Error>)
    ensures r == Err(EmptyId) <==> manifestValue == ""
    ensures r.Ok? ==> ';' !in r.value
    ensures r.Err? ==> r.error in {EmptyId, MalformedId}
  {
    if |manifestValue| == 0 then Err(EmptyId)
    else
      var tokens := Split(manifestValue, ';');
      if |tokens| < 1 || |tokens| > 2 then Err(MalformedId)
      else Ok(tokens[0])
  }

  /**
   * The tag from the manifest bytes: the name header is required first, then the ID
   * header; the ID is extracted from the ID header and the name is taken verbatim.
   */
  function CreateTag(manifestContents: Bytes, parseManifest: Bytes -> Option<Headers>): (r: Result<Tag, Error>)
    ensures parseManifest(manifestContents).None? ==> r == Err(ManifestMalformed)
    ensures parseManifest(manifestContents).Some? ==>
      var attributes := parseManifest(manifestContents).value;
      && (NameManifestHeader !in attributes ==> r == Err(NameHeaderMissing))
      && (NameManifestHeader in attributes && IdManifestHeader !in attributes ==> r == Err(IdHeaderMissing))
      && (NameManifestHeader in attributes && IdManifestHeader in attributes ==>
            var id := ExtractId(attributes[IdManifestHeader]);
            && (r.Ok? <==> id.Ok?)
            && (r.Ok? ==> r.value == Tag(id.value, attributes[NameManifestHeader]))
            && (r.Err? ==> r.error == id.error))
  {
    match parseManifest(manifestContents)
    case None => Err(ManifestMalformed)
    case Some(attributes) =>
      if NameManifestHeader !in attributes then Err(NameHeaderMissing)
      else if IdManifestHeader !in attributes then Err(IdHeaderMissing)
      else
        var id :- ExtractId(attributes[IdManifestHeader]);
        Ok(Tag(id, attributes[NameManifestHeader]))
  }

  // ---------------------------------------------------------------------------
  // Resource names
  // ---------------------------------------------------------------------------

  /**
   * The resource name is everything after the last '/'; a path ending in '/' (and the
   * empty path, whose lastIndexOf -1 equals its length - 1) is rejected.
   */
  function ResourceNameFromResourcePath(resourcePath: string): (r: Result<string, Error>)
    ensures r.Ok? <==> |resourcePath| > 0 && resourcePath[|resourcePath| - 1] != '/'
    ensures r.Err? ==> r.error == TrailingSlash
    ensures r.Ok? ==>
      && |r.value| > 0 && '/' !in r.value && EndsWith(resourcePath, r.value)
      && (|r.value| == |resourcePath| || resourcePath[|resourcePath| - |r.value| - 1] == '/')
  {
    var lastSlashIndex := LastIndexOf(resourcePath, '/');
    if lastSlashIndex == |resourcePath| - 1 then Err(TrailingSlash)
    else Ok(resourcePath[lastSlashIndex + 1..])
  }

  // ---------------------------------------------------------------------------
  // Per-type collection
  // ---------------------------------------------------------------------------

  /** The File for an entry listed in dir. */
  function FileOf(root: string, dir: string, e: Entry): File {
    File(PathOf(root, dir, e.name))
  }

  /** The entries of listing whose File the predicate accepts, in listing order. */
  function Matching(root: string, dir: string, pred: FilePredicate, listing: seq<Entry>): (matched: seq<Entry>)
    ensures |matched| <= |listing|
    ensures forall e :: e in matched <==> e in listing && Test(pred, Some(FileOf(root, dir, e)))
  {
    if listing == [] then []
    else
      var rest := Matching(root, dir, pred, listing[1..]);
      if Test(pred, Some(FileOf(root, dir, listing[0]))) then [listing[0]] + rest else rest
  }

  /**
   * The resource for one matched entry: its name from its absolute path, and its
   * content the override when there is one, else the entry's own bytes.
   */
  function MakeResource(root: string, dir: string, tag: Tag, resourceType: ResourceType,
                        content: Option<Bytes>, e: Entry): (r: Result<Resource, Error>)
    ensures r.Ok? ==> r.value.tag == tag && r.value.resourceType == resourceType
    ensures r.Ok? ==> r.value.name != "" && '/' !in r.value.name
    ensures r.Ok? && content.Some? ==> r.value.content == content.value
    ensures r.Ok? && content.None? ==> e.body.Some? && r.value.content == e.body.value
    ensures r.Err? && content.Some? ==> r.error == TrailingSlash
  {
    var path := PathOf(root, dir, e.name);
    var name :- ResourceNameFromResourcePath(path);
    var bytes :- if content.Some? then Ok(content.value) else ReadFile(path, e);
    Ok(Resource(tag, resourceType, name, bytes))
  }

  /** Builds each item in order: the first failure, or every result in item order. */
  function BuildEach<A, T>(items: seq<A>, build: A -> Result<T, Error>): (r: Result<seq<T>, Error>)
    ensures r.Ok? ==> |r.value| == |items|
    decreases |items|
  {
    if items == [] then Ok([])
    else
      var done :- BuildEach(items[..|items| - 1], build);
      var last :- build(items[|items| - 1]);
      Ok(done + [last])
  }

  /** Building one more item: the prefix first, then the new item. */
  lemma BuildEachStep<A, T>(items: seq<A>, build: A -> Result<T, Error>, i: nat)
    requires i < |items|
    ensures var before := BuildEach(items[..i], build);
            var one := build(items[i]);
            BuildEach(items[..i + 1], build)
              == if before.Err? then before
                 else if one.Err? then Err(one.error)
                 else Ok(before.value + [one.value])
  {
    var longer := items[..i + 1];
    assert longer[..|longer| - 1] == items[..i];
  }

  /** Once a prefix of the items fails, building all of them fails the same way. */
  lemma {:induction false} BuildEachErrorPersists<A, T>(items: seq<A>, build: A -> Result<T, Error>, i: nat)
    requires i <= |items|
    requires BuildEach(items[..i], build).Err?
    ensures BuildEach(items, build) == BuildEach(items[..i], build)
    decreases |items| - i
  {
    if i < |items| {
      BuildEachStep(items, build, i);
      BuildEachErrorPersists(items, build, i + 1);
    } else {
      assert items[..i] == items;
    }
  }

  /** MakeResource for the entries of one directory. */
  function ResourceBuilder(root: string, dir: string, tag: Tag, resourceType: ResourceType,
                           content: Option<Bytes>): Entry -> Result<Resource, Error>
  {
    (e: Entry) => MakeResource(root, dir, tag, resourceType, content, e)
  }

  /** What getArtifactResourceCollection returns for dir: no listing means no resources. */
  function Collection(pkg: Package, dir: string, tag: Tag, pred: FilePredicate,
                      resourceType: ResourceType, content: Option<Bytes>): (r: Result<seq<Resource>, Error>)
    ensures dir !in pkg.dirs ==> r == Ok([])
    ensures dir in pkg.dirs && r.Ok? ==> |r.value| <= |pkg.dirs[dir]|
  {
    var files := ListFiles(pkg, dir);
    var matched := if files.Some? then Matching(pkg.root, dir, pred, files.value) else [];
    BuildEach(matched, ResourceBuilder(pkg.root, dir, tag, resourceType, content))
  }

  /** getArtifactResourceCollection(p, tag, ext, type, content). */
  method GetArtifactResourceCollectionWithContent(pkg: Package, dir: string, tag: Tag, pred: FilePredicate,
                                                  resourceType: ResourceType, content: Option<Bytes>)
    returns (r: Result<seq<Resource>, Error>)
    ensures r == Collection(pkg, dir, tag, pred, resourceType, content)
  {
    var files := ListFiles(pkg, dir);
    var matched: seq<Entry> := [];
    if files.Some? {
      matched := Matching(pkg.root, dir, pred, files.value);
    }
    ghost var build := ResourceBuilder(pkg.root, dir, tag, resourceType, content);
    var artifactResources: seq<Resource> := [];
    for i := 0 to |matched|
      invariant BuildEach(matched[..i], build) == Ok(artifactResources)
    {
      var resource := MakeResource(pkg.root, dir, tag, resourceType, content, matched[i]);
      BuildEachStep(matched, build, i);
      if resource.Err? {
        BuildEachErrorPersists(matched, build, i + 1);
        return Err(resource.error);
      }
      artifactResources := artifactResources + [resource.value];
    }
    assert matched[..|matched|] == matched;
    r := Ok(artifactResources);
  }

  /** getArtifactResourceCollection(p, tag, ext, type): the same with no override content. */
  method GetArtifactResourceCollection(pkg: Package, dir: string, tag: Tag, pred: FilePredicate,
                                       resourceType: ResourceType)
    returns (r: Result<seq<Resource>, Error>)
    ensures r == Collection(pkg, dir, tag, pred, resourceType, None)
  {
    r := GetArtifactResourceCollectionWithContent(pkg, dir, tag, pred, resourceType, None);
  }

  // ---------------------------------------------------------------------------
  // External parameters
  // ---------------------------------------------------------------------------

  /** transformIflowXml: the stylesheet applied to the iflow bytes with the parameter map. */
  function TransformIflowXml(iflowXml: Bytes, parametersMap: Params,
                             transform: (Bytes, Params) -> Option<Bytes>): (r: Result<Bytes, Error>)
    ensures r.Ok? <==> transform(iflowXml, parametersMap).Some?
    ensures r.Ok? ==> r.value == transform(iflowXml, parametersMap).value
    ensures r.Err? ==> r.error == TransformFailed
  {
    match transform(iflowXml, parametersMap)
    case Some(out) => Ok(out)
    case None => Err(TransformFailed)
  }

  /**
   * replaceExternalParameters: read the raw iflow file, then parameters.prop, load the
   * properties and transform the raw iflow with them.
   */
  function ReplaceExternalParameters(pkg: Package, iflowXmlPath: string, iflowFile: Entry,
                                     env: Collaborators): (r: Result<Bytes, Error>)
    ensures iflowFile.body.None? ==> r == Err(ReadFailed(iflowXmlPath))
    ensures iflowFile.body.Some? && !Exists(pkg, ResourcesBase, ParametersName)
            ==> r == Err(ReadFailed(PathOf(pkg.root, ResourcesBase, ParametersName)))
    ensures r.Ok? ==> Exists(pkg, ResourcesBase, ParametersName) && iflowFile.body.Some?
  {
    var iflowXml :- ReadFile(iflowXmlPath, iflowFile);
    var props :- ReadNamed(pkg, ResourcesBase, ParametersName);
    var parametersMap :- if env.loadProperties(props).Some? then Ok(env.loadProperties(props).value)
                         else Err(ParametersMalformed);
    TransformIflowXml(iflowXml, parametersMap, env.transform)
  }

  /** iFlowWithExternalParameters: computed only when parameters.prop exists, else null. */
  function ParameterOverride(pkg: Package, iflowXmlPath: string, iflowFile: Entry,
                             env: Collaborators): (r: Result<Option<Bytes>, Error>)
    ensures !Exists(pkg, ResourcesBase, ParametersName) ==> r == Ok(None)
    ensures Exists(pkg, ResourcesBase, ParametersName) ==>
              (r.Ok? <==> ReplaceExternalParameters(pkg, iflowXmlPath, iflowFile, env).Ok?)
    ensures r.Ok? && r.value.Some? ==> ReplaceExternalParameters(pkg, iflowXmlPath, iflowFile, env) == Ok(r.value.value)
  {
    if Exists(pkg, ResourcesBase, ParametersName) then
      var replaced :- ReplaceExternalParameters(pkg, iflowXmlPath, iflowFile, env);
      Ok(Some(replaced))
    else Ok(None)
  }

  // ---------------------------------------------------------------------------
  // Assembly
  // ---------------------------------------------------------------------------

  /** One put of from: the type, the directory it is collected from and its file predicate. */
  datatype Row = Row(resourceType: ResourceType, dir: string, pred: FilePredicate)

  /** The ten puts of from, in source order; scripts and mappings share directories. */
  const ResourceTable: seq<Row> := [
    Row(GroovyScript, ScriptDir, Or(Extension(".groovy"), Extension("gsh"))),
    Row(JavascriptScript, ScriptDir, Extension(".js")),
    Row(Xsd, XsdDir, Extension(".xsd")),
    Row(MessageMapping, MappingDir, Extension(".mmap")),
    Row(XsltMapping, MappingDir, Or(Extension(".xsl"), Extension(".xslt"))),
    Row(Iflow, IflowDir, IflowPredicate),
    Row(JavaArchive, LibDir, Or(Extension(".jar"), Extension(".zip"))),
    Row(Wsdl, WsdlDir, Extension(".wsdl")),
    Row(Edmx, EdmxDir, Extension(".edmx")),
    Row(OperationMapping, MappingDir, Extension(".opmap"))
  ]

  /** The override content a row's collection receives: only the iflow row gets it. */
  function RowContent(row: Row, iflowOverride: Option<Bytes>): (content: Option<Bytes>)
    ensures row.resourceType != Iflow ==> content == None
  {
    if row.resourceType == Iflow then iflowOverride else None
  }

  /** The map after one put per row, in order, each holding the row's collection; the first failing collection is returned. */
  function PutEach(rows: seq<Row>, collect: Row -> Result<seq<Resource>, Error>)
    : (r: Result<map<ResourceType, seq<Resource>>, Error>)
    ensures r.Ok? ==> forall i :: 0 <= i < |rows| ==> rows[i].resourceType in r.value
    decreases |rows|
  {
    if rows == [] then Ok(map[])
    else
      assert forall i :: 0 <= i < |rows| - 1 ==> rows[..|rows| - 1][i] == rows[i];
      var resourcesMap :- PutEach(rows[..|rows| - 1], collect);
      var row := rows[|rows| - 1];
      var collection :- collect(row);
      Ok(resourcesMap[row.resourceType := collection])
  }

  /** One more put: the earlier puts first, then the new row's collection. */
  lemma PutEachStep(rows: seq<Row>, collect: Row -> Result<seq<Resource>, Error>, i: nat)
    requires i < |rows|
    ensures var before := PutEach(rows[..i], collect);
            var one := collect(rows[i]);
            PutEach(rows[..i + 1], collect)
              == if before.Err? then before
                 else if one.Err? then Err(one.error)
                 else Ok(before.value[rows[i].resourceType := one.value])
  {
    var longer := rows[..i + 1];
    assert longer[..|longer| - 1] == rows[..i];
  }

  /** Once a prefix of the puts fails, all of them fail the same way. */
  lemma {:induction false} PutEachErrorPersists(rows: seq<Row>, collect: Row -> Result<seq<Resource>, Error>, i: nat)
    requires i <= |rows|
    requires PutEach(rows[..i], collect).Err?
    ensures PutEach(rows, collect) == PutEach(rows[..i], collect)
    decreases |rows| - i
  {
    if i < |rows| {
      PutEachStep(rows, collect, i);
      PutEachErrorPersists(rows, collect, i + 1);
    } else {
      assert rows[..i] == rows;
    }
  }

  /** The collection of a row, with the override only for the iflow row. */
  function RowCollector(pkg: Package, tag: Tag, iflowOverride: Option<Bytes>): Row -> Result<seq<Resource>, Error> {
    (row: Row) => Collection(pkg, row.dir, tag, row.pred, row.resourceType, RowContent(row, iflowOverride))
  }

  /** The .iflw files of the iflow directory listing. */
  function IflowFiles(pkg: Package, listing: seq<Entry>): seq<Entry> {
    Matching(pkg.root, IflowDir, IflowPredicate, listing)
  }

  /**
   * The single .iflw file of the iflow directory: requireNonNull fails when the
   * directory cannot be listed, and anything but exactly one match is rejected.
   */
  function LocateIflowFile(pkg: Package): (r: Result<Entry, Error>)
    ensures IflowDir !in pkg.dirs ==> r == Err(IflowDirectoryMissing)
    ensures IflowDir in pkg.dirs ==>
      && (r.Ok? <==> |IflowFiles(pkg, pkg.dirs[IflowDir])| == 1)
      && (r.Ok? ==> r.value == IflowFiles(pkg, pkg.dirs[IflowDir])[0])
      && (r.Err? ==> r.error == IflowNotUnique)
  {
    if IflowDir !in pkg.dirs then Err(IflowDirectoryMissing)
    else
      var iflowXmlPaths := IflowFiles(pkg, pkg.dirs[IflowDir]);
      if |iflowXmlPaths| != 1 then Err(IflowNotUnique) else Ok(iflowXmlPaths[0])
  }

  /** The absolute path of the iflow file. */
  function IflowXmlPath(pkg: Package, iflowFile: Entry): string {
    PathOf(pkg.root, IflowDir, iflowFile.name)
  }

  /** The last steps of from: the ten puts, then the iflow document from the raw .iflw file. */
  function BuildArtifact(pkg: Package, tag: Tag, iflowFile: Entry, iflowOverride: Option<Bytes>): (r: Result<Artifact, Error>)
    ensures r.Ok? ==> r.value.tag == tag
    ensures r.Ok? ==> iflowFile.body.Some? && r.value.iflowXml == IflowXml(iflowFile.body.value)
    ensures r.Ok? ==> forall i :: 0 <= i < |ResourceTable| ==> ResourceTable[i].resourceType in r.value.resources
  {
    var resources :- PutEach(ResourceTable, RowCollector(pkg, tag, iflowOverride));
    var raw :- ReadFile(IflowXmlPath(pkg, iflowFile), iflowFile);
    Ok(Artifact(tag, resources, IflowXml(raw)))
  }

  /** What from returns for a package: the artifact, or the first error raised. */
  function Assemble(pkg: Package, env: Collaborators): (r: Result<Artifact, Error>)
    ensures !Exists(pkg, ManifestDir, ManifestName) ==> r == Err(ReadFailed(PathOf(pkg.root, ManifestDir, ManifestName)))
    ensures r.Ok? ==> ReadNamed(pkg, ManifestDir, ManifestName).Ok?
    ensures r.Ok? ==> Ok(r.value.tag) == CreateTag(ReadNamed(pkg, ManifestDir, ManifestName).value, env.parseManifest)
    ensures r.Ok? ==> LocateIflowFile(pkg).Ok?
  {
    var manifest :- ReadNamed(pkg, ManifestDir, ManifestName);
    var tag :- CreateTag(manifest, env.parseManifest);
    var iflowFile :- LocateIflowFile(pkg);
    var iflowOverride :- ParameterOverride(pkg, IflowXmlPath(pkg, iflowFile), iflowFile, env);
    BuildArtifact(pkg, tag, iflowFile, iflowOverride)
  }

  /** from(p): builds the artifact, filling the resources map one put per table row. */
  method From(pkg: Package, env: Collaborators) returns (r: Result<Artifact, Error>)
    ensures r == Assemble(pkg, env)
  {
    var manifest :- ReadNamed(pkg, ManifestDir, ManifestName);
    var tag :- CreateTag(manifest, env.parseManifest);
    var iflowFile :- LocateIflowFile(pkg);
    var iflowXmlPath := IflowXmlPath(pkg, iflowFile);
    var iflowOverride :- ParameterOverride(pkg, iflowXmlPath, iflowFile, env);

    ghost var collect := RowCollector(pkg, tag, iflowOverride);
    var resourcesMap: map<ResourceType, seq<Resource>> := map[];
    for k := 0 to |ResourceTable|
      invariant PutEach(ResourceTable[..k], collect) == Ok(resourcesMap)
    {
      var row := ResourceTable[k];
      var collection;
      if row.resourceType == Iflow {
        collection := GetArtifactResourceCollectionWithContent(pkg, row.dir, tag, row.pred, row.resourceType, iflowOverride);
      } else {
        collection := GetArtifactResourceCollection(pkg, row.dir, tag, row.pred, row.resourceType);
      }
      PutEachStep(ResourceTable, collect, k);
      if collection.Err? {
        PutEachErrorPersists(ResourceTable, collect, k + 1);
        assert ResourceTable[..|ResourceTable|] == ResourceTable;
        return Err(collection.error);
      }
      resourcesMap := resourcesMap[row.resourceType := collection.value];
    }
    assert ResourceTable[..|ResourceTable|] == ResourceTable;

    var raw :- ReadFile(iflowXmlPath, iflowFile);
    r := Ok(Artifact(tag, resourcesMap, IflowXml(raw)));
  }

  /** getResourcesByType: the resources of a type, failing only when the map has no entry for it. */
  function GetResourcesByType(artifact: Artifact, resourceType: ResourceType): (r: Result<seq<Resource>, Error>)
    ensures r.Err? <==> resourceType !in artifact.resources
    ensures r.Err? ==> r.error == ResourceTypeNotFound
    ensures r.Ok? ==> r.value == artifact.resources[resourceType]
  {
    if resourceType !in artifact.resources then Err(ResourceTypeNotFound)
    else Ok(artifact.resources[resourceType])
  }
}
