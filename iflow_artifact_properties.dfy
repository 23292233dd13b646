/**
 * What ExpandedZipArchiveIflowArtifact promises: the shape of accepted IDs, the
 * resource-name rule, what a per-type collection holds, and what a successfully
 * built artifact contains.
 */
module IflowArtifactProperties {
  import opened Wrappers
  import opened JavaString
  import opened ExtensionPredicates
  import opened ArtifactTypes
  import opened ExpandedZipArchiveIflowArtifact

  // ---------------------------------------------------------------------------
  // extractId
  // ---------------------------------------------------------------------------

  /** The ID is the text of the value before its first ';' (the whole value when there is none), untrimmed. */
  lemma ExtractIdFirstToken(manifestValue: string)
    requires ExtractId(manifestValue).Ok?
    ensures var id := ExtractId(manifestValue).value;
            && id == SplitAll(manifestValue, ';')[0]
            && |id| <= |manifestValue| && manifestValue[..|id|] == id
            && (|id| == |manifestValue| || manifestValue[|id|] == ';')
  {
    SplitIsPrefixOfPieces(manifestValue, ';');
    SplitAllFirst(manifestValue, ';');
  }

  /**
   * The token-count rule stated on the pieces between the ';' separators: a non-empty
   * value is accepted exactly when one of its first two pieces is non-empty and every
   * later piece is empty (Java drops trailing empty tokens, keeps leading ones).
   */
  lemma ExtractIdAccepts(manifestValue: string)
    requires manifestValue != ""
    ensures var pieces := SplitAll(manifestValue, ';');
            ExtractId(manifestValue).Ok? <==>
              && (pieces[0] != "" || (|pieces| >= 2 && pieces[1] != ""))
              && forall i :: 2 <= i < |pieces| ==> pieces[i] == ""
    ensures ExtractId(manifestValue).Err? ==> ExtractId(manifestValue).error == MalformedId
  {
    SplitIsPrefixOfPieces(manifestValue, ';');
    var pieces := SplitAll(manifestValue, ';');
    var tokens := Split(manifestValue, ';');
    if 1 <= |tokens| <= 2 {
      forall i | 2 <= i < |pieces| ensures pieces[i] == "" {
        assert |tokens| <= i;
      }
      if |tokens| == 1 {
        assert pieces[0] == tokens[0];
      } else {
        assert pieces[1] == tokens[1];
      }
    } else if |tokens| == 0 {
      assert pieces[0] == "";
      if |pieces| >= 2 {
        assert pieces[1] == "";
      }
    } else {
      assert pieces[2] == tokens[2];
    }
  }

  /** A value with no ';' is its own ID (when non-empty). */
  lemma ExtractIdOfOnePiece(a: string)
    requires a != "" && ';' !in a
    ensures ExtractId(a) == Ok(a)
  {
  }

  /** A value a;b with no other ';' gives ID a, unless both pieces are empty (then no token is left). */
  lemma ExtractIdOfTwoPieces(a: string, b: string)
    requires ';' !in a && ';' !in b
    ensures ExtractId(a + ";" + b) == if a == "" && b == "" then Err(MalformedId) else Ok(a)
  {
    var v := a + ";" + b;
    assert v[|a|] == ';';
    SplitAllJoin([a, b], ';');
    assert Join([a, b], ';') == v;
  }

  /** A value a;b;c with a non-empty last piece has three tokens and is rejected. */
  lemma ExtractIdOfThreePieces(a: string, b: string, c: string)
    requires ';' !in a && ';' !in b && ';' !in c && c != ""
    ensures ExtractId(a + ";" + b + ";" + c) == Err(MalformedId)
  {
    var v := a + ";" + b + ";" + c;
    assert v[|a|] == ';';
    SplitAllJoin([a, b, c], ';');
    assert [a, b, c][1..] == [b, c];
    assert Join([b, c], ';') == b + ";" + c;
    assert Join([a, b, c], ';') == v;
  }

  /** The first known format: a bare ID. */
  lemma ExtractIdBareFormat()
    ensures ExtractId("HCITracker") == Ok("HCITracker")
  {
    var id := "HCITracker";
    assert ';' !in id;
    ExtractIdOfOnePiece(id);
  }

  /** The second known format: the ID followed by a singleton directive, which is not inspected. */
  lemma ExtractIdSingletonFormat()
    ensures ExtractId("HCITracker; singleton:=true") == Ok("HCITracker")
  {
    var id, directive := "HCITracker", " singleton:=true";
    NoSeparatorInSingletonFormat(id, directive);
    ExtractIdOfTwoPieces(id, directive);
  }

  /** The two pieces of the singleton format contain no separator and join to it. */
  lemma NoSeparatorInSingletonFormat(id: string, directive: string)
    requires id == "HCITracker" && directive == " singleton:=true"
    ensures ';' !in id && ';' !in directive
    ensures id + ";" + directive == "HCITracker; singleton:=true"
  {
  }

  /** Java's split drops a trailing empty token: "Foo;" gives "Foo". */
  lemma ExtractIdTrailingSeparator()
    ensures ExtractId("Foo;") == Ok("Foo")
  {
    ExtractIdOfTwoPieces("Foo", "");
    assert "Foo" + ";" + "" == "Foo;";
  }

  /** A lone separator leaves no token at all and is malformed. */
  lemma ExtractIdSeparatorOnly()
    ensures ExtractId(";") == Err(MalformedId)
  {
    ExtractIdOfTwoPieces("", "");
    assert "" + ";" + "" == ";";
  }

  /** A leading separator keeps the leading empty token: ";a" gives the empty ID. */
  lemma ExtractIdLeadingSeparator()
    ensures ExtractId(";a") == Ok("")
  {
    ExtractIdOfTwoPieces("", "a");
    assert "" + ";" + "a" == ";a";
  }

  /** Three tokens are malformed. */
  lemma ExtractIdThreeTokens()
    ensures ExtractId("a;b;c") == Err(MalformedId)
  {
    ExtractIdOfThreePieces("a", "b", "c");
    assert "a" + ";" + "b" + ";" + "c" == "a;b;c";
  }

  // ---------------------------------------------------------------------------
  // createTag
  // ---------------------------------------------------------------------------

  /** The name header is taken verbatim: an empty name is accepted. */
  lemma CreateTagKeepsEmptyName(manifestContents: Bytes)
    ensures CreateTag(manifestContents, _ => Some(map[NameManifestHeader := "", IdManifestHeader := "Flow"]))
         == Ok(Tag("Flow", ""))
  {
    ExtractIdOfOnePiece("Flow");
  }

  /** The name header is checked before the ID header. */
  lemma CreateTagChecksNameFirst(manifestContents: Bytes)
    ensures CreateTag(manifestContents, _ => Some(map[])) == Err(NameHeaderMissing)
  {
  }

  // ---------------------------------------------------------------------------
  // resourceNameFromResourcePath
  // ---------------------------------------------------------------------------

  /** A path without '/' is its own resource name. */
  lemma ResourceNameWithoutSlash(resourcePath: string)
    requires resourcePath != "" && '/' !in resourcePath
    ensures ResourceNameFromResourcePath(resourcePath) == Ok(resourcePath)
  {
  }

  /** The resource name of dir/name is name, for any non-empty name free of '/'. */
  lemma ResourceNameOfChild(dir: string, name: string)
    requires name != "" && '/' !in name
    ensures ResourceNameFromResourcePath(dir + "/" + name) == Ok(name)
  {
    GetNameOfChild(dir, name);
  }

  /** A resource name is the file name File.getName gives for the same path. */
  lemma ResourceNameIsFileName(resourcePath: string)
    requires ResourceNameFromResourcePath(resourcePath).Ok?
    ensures ResourceNameFromResourcePath(resourcePath).value == GetName(File(resourcePath))
  {
  }

  /** Examples: a nested path gives its last segment; "" and a trailing '/' are rejected. */
  lemma ResourceNameExamples()
    ensures ResourceNameFromResourcePath("/tmp/iflow/foo/bar.xsd") == Ok("bar.xsd")
    ensures ResourceNameFromResourcePath("") == Err(TrailingSlash)
    ensures ResourceNameFromResourcePath("/tmp/iflow/foo/") == Err(TrailingSlash)
  {
    ResourceNameOfChild("/tmp/iflow/foo", "bar.xsd");
    assert "/tmp/iflow/foo" + "/" + "bar.xsd" == "/tmp/iflow/foo/bar.xsd";
  }

  // ---------------------------------------------------------------------------
  // getArtifactResourceCollection
  // ---------------------------------------------------------------------------

  /** A name a directory listing can hold. */
  predicate ListedName(name: string) {
    name != "" && '/' !in name
  }

  /** Every listed name is a plain file name. */
  predicate WellFormedPackage(pkg: Package) {
    forall dir, e :: dir in pkg.dirs && e in pkg.dirs[dir] ==> ListedName(e.name)
  }

  /** A directory that cannot be listed yields an empty collection, not an error. */
  lemma CollectionOfMissingDirectory(pkg: Package, dir: string, tag: Tag, pred: FilePredicate,
                                     resourceType: ResourceType, content: Option<Bytes>)
    requires dir !in pkg.dirs
    ensures Collection(pkg, dir, tag, pred, resourceType, content) == Ok([])
  {
  }

  /** Building a list succeeds exactly when each item builds, and keeps item order. */
  lemma {:induction false} BuildEachAll<A, T>(items: seq<A>, build: A -> Result<T, Error>)
    ensures var r := BuildEach(items, build);
            && (r.Ok? <==> forall i :: 0 <= i < |items| ==> build(items[i]).Ok?)
            && (r.Ok? ==> |r.value| == |items| && forall i :: 0 <= i < |items| ==> r.value[i] == build(items[i]).value)
    decreases |items|
  {
    if items != [] {
      var n := |items| - 1;
      var init := items[..n];
      BuildEachAll(init, build);
      BuildEachStep(items, build, n);
      assert items[..n + 1] == items;
      assert forall i :: 0 <= i < n ==> init[i] == items[i];
    }
  }

  /** The resource of a listed entry: its own name, and the override or else its own bytes. */
  lemma MakeResourceOfListedEntry(root: string, dir: string, tag: Tag, resourceType: ResourceType,
                                  content: Option<Bytes>, e: Entry)
    requires ListedName(e.name)
    ensures var r := MakeResource(root, dir, tag, resourceType, content, e);
            && (r.Ok? <==> content.Some? || e.body.Some?)
            && (r.Ok? ==> r.value == Resource(tag, resourceType, e.name,
                                              if content.Some? then content.value else e.body.value))
  {
    assert PathOf(root, dir, e.name) == (root + "/" + dir) + "/" + e.name;
    ResourceNameOfChild(root + "/" + dir, e.name);
  }

  /**
   * Entries with plain names yield one resource each, in order, with the given tag and
   * type, the entry's name, and the override content when there is one, else the
   * entry's bytes; building fails only on an unreadable entry without override.
   */
  lemma ResourcesOfListedEntries(root: string, dir: string, tag: Tag, resourceType: ResourceType,
                                 content: Option<Bytes>, entries: seq<Entry>)
    requires forall i :: 0 <= i < |entries| ==> ListedName(entries[i].name)
    ensures var r := BuildEach(entries, ResourceBuilder(root, dir, tag, resourceType, content));
            && (r.Ok? <==> content.Some? || forall i :: 0 <= i < |entries| ==> entries[i].body.Some?)
            && (r.Ok? ==> |r.value| == |entries| && forall i :: 0 <= i < |entries| ==>
                  r.value[i] == Resource(tag, resourceType, entries[i].name,
                                         if content.Some? then content.value else entries[i].body.value))
  {
    var build := ResourceBuilder(root, dir, tag, resourceType, content);
    BuildEachAll(entries, build);
    forall i | 0 <= i < |entries|
      ensures build(entries[i]).Ok? <==> content.Some? || entries[i].body.Some?
      ensures build(entries[i]).Ok? ==>
                build(entries[i]).value == Resource(tag, resourceType, entries[i].name,
                                                    if content.Some? then content.value else entries[i].body.value)
    {
      MakeResourceOfListedEntry(root, dir, tag, resourceType, content, entries[i]);
      assert build(entries[i]) == MakeResource(root, dir, tag, resourceType, content, entries[i]);
    }
  }

  /**
   * A listed directory yields one resource per matching file, in listing order, each
   * with the given tag and type, the file's name, and the override content when there
   * is one, else the file's bytes; it fails only when a matching file cannot be read
   * and there is no override.
   */
  lemma CollectionOfListedDirectory(pkg: Package, dir: string, tag: Tag, pred: FilePredicate,
                                    resourceType: ResourceType, content: Option<Bytes>)
    requires WellFormedPackage(pkg)
    requires dir in pkg.dirs
    ensures var matched := Matching(pkg.root, dir, pred, pkg.dirs[dir]);
            var r := Collection(pkg, dir, tag, pred, resourceType, content);
            && (r.Ok? <==> content.Some? || forall i :: 0 <= i < |matched| ==> matched[i].body.Some?)
            && (r.Ok? ==> |r.value| == |matched| && forall i :: 0 <= i < |matched| ==>
                  r.value[i] == Resource(tag, resourceType, matched[i].name,
                                         if content.Some? then content.value else matched[i].body.value))
  {
    var matched := Matching(pkg.root, dir, pred, pkg.dirs[dir]);
    MatchingListedNames(pkg, dir, pred);
    ResourcesOfListedEntries(pkg.root, dir, tag, resourceType, content, matched);
    CollectionOfListing(pkg, dir, tag, pred, resourceType, content);
  }

  /** The files matched in a directory of a well-formed package have plain names. */
  lemma MatchingListedNames(pkg: Package, dir: string, pred: FilePredicate)
    requires WellFormedPackage(pkg)
    requires dir in pkg.dirs
    ensures var matched := Matching(pkg.root, dir, pred, pkg.dirs[dir]);
            forall i :: 0 <= i < |matched| ==> ListedName(matched[i].name)
  {
    var matched := Matching(pkg.root, dir, pred, pkg.dirs[dir]);
    forall i | 0 <= i < |matched|
      ensures ListedName(matched[i].name)
    {
      assert matched[i] in pkg.dirs[dir];
    }
  }

  /** A listed directory's collection builds one resource per matched file. */
  lemma CollectionOfListing(pkg: Package, dir: string, tag: Tag, pred: FilePredicate,
                            resourceType: ResourceType, content: Option<Bytes>)
    requires dir in pkg.dirs
    ensures Collection(pkg, dir, tag, pred, resourceType, content)
         == BuildEach(Matching(pkg.root, dir, pred, pkg.dirs[dir]), ResourceBuilder(pkg.root, dir, tag, resourceType, content))
  {
  }

  /** The filter of one entry keeps it exactly when the predicate accepts its file. */
  lemma MatchingOne(root: string, dir: string, pred: FilePredicate, e: Entry)
    ensures Matching(root, dir, pred, [e]) == if Test(pred, Some(FileOf(root, dir, e))) then [e] else []
  {
    assert [e][1..] == [];
  }

  /**
   * The filter of a concatenated listing is the filter of its first part followed by
   * the filter of the rest: with MatchingOne, the filter keeps accepted entries once
   * each and in listing order.
   */
  lemma {:induction false} MatchingAppend(root: string, dir: string, pred: FilePredicate, a: seq<Entry>, b: seq<Entry>)
    ensures Matching(root, dir, pred, a + b) == Matching(root, dir, pred, a) + Matching(root, dir, pred, b)
    decreases |a|
  {
    if a == [] {
      assert a + b == b;
    } else {
      assert (a + b)[0] == a[0];
      assert (a + b)[1..] == a[1..] + b;
      MatchingAppend(root, dir, pred, a[1..], b);
    }
  }

  /** Building a concatenation succeeds exactly when both parts build, and gives their results in order. */
  lemma BuildEachAppend<A, T>(x: seq<A>, y: seq<A>, build: A -> Result<T, Error>)
    ensures BuildEach(x + y, build).Ok? <==> BuildEach(x, build).Ok? && BuildEach(y, build).Ok?
    ensures BuildEach(x + y, build).Ok? ==>
              BuildEach(x + y, build).value == BuildEach(x, build).value + BuildEach(y, build).value
  {
    var xy := x + y;
    BuildEachAll(x, build);
    BuildEachAll(y, build);
    BuildEachAll(xy, build);
    assert forall i :: 0 <= i < |x| ==> xy[i] == x[i];
    assert forall i :: 0 <= i < |y| ==> xy[|x| + i] == y[i];
    if BuildEach(x, build).Ok? && BuildEach(y, build).Ok? {
      forall i | 0 <= i < |xy|
        ensures build(xy[i]).Ok?
      {
        if i >= |x| {
          assert xy[i] == y[i - |x|];
        }
      }
    }
    if BuildEach(xy, build).Ok? {
      assert forall i :: 0 <= i < |x| ==> build(x[i]).Ok? by {
        forall i | 0 <= i < |x| ensures build(x[i]).Ok? { assert xy[i] == x[i]; }
      }
      assert forall i :: 0 <= i < |y| ==> build(y[i]).Ok? by {
        forall i | 0 <= i < |y| ensures build(y[i]).Ok? { assert xy[|x| + i] == y[i]; }
      }
      var r := BuildEach(xy, build).value;
      var rx, ry := BuildEach(x, build).value, BuildEach(y, build).value;
      forall i | 0 <= i < |r|
        ensures r[i] == (rx + ry)[i]
      {
        if i >= |x| {
          assert xy[i] == y[i - |x|];
        }
      }
    }
  }

  /**
   * Listing order is kept: when a directory lists a, then b, the collection is the
   * resources of a's matching files followed by those of b's.
   */
  lemma CollectionKeepsListingOrder(pkg: Package, dir: string, tag: Tag, pred: FilePredicate,
                                    resourceType: ResourceType, content: Option<Bytes>, a: seq<Entry>, b: seq<Entry>)
    requires dir in pkg.dirs && pkg.dirs[dir] == a + b
    ensures var build := ResourceBuilder(pkg.root, dir, tag, resourceType, content);
            var r := Collection(pkg, dir, tag, pred, resourceType, content);
            var ra := BuildEach(Matching(pkg.root, dir, pred, a), build);
            var rb := BuildEach(Matching(pkg.root, dir, pred, b), build);
            && (r.Ok? <==> ra.Ok? && rb.Ok?)
            && (r.Ok? ==> r.value == ra.value + rb.value)
  {
    var build := ResourceBuilder(pkg.root, dir, tag, resourceType, content);
    CollectionOfListing(pkg, dir, tag, pred, resourceType, content);
    MatchingAppend(pkg.root, dir, pred, a, b);
    BuildEachAppend(Matching(pkg.root, dir, pred, a), Matching(pkg.root, dir, pred, b), build);
  }

  /** "gsh" is matched without a dot: a script called "notagsh" is a Groovy script. */
  lemma GroovyPredicateAcceptsGshWithoutDot(root: string)
    ensures Test(ResourceTable[0].pred, Some(FileOf(root, ScriptDir, Entry("notagsh", None))))
  {
    var path := PathOf(root, ScriptDir, "notagsh");
    assert path == (root + "/" + ScriptDir) + "/" + "notagsh";
    GetNameOfChild(root + "/" + ScriptDir, "notagsh");
    assert "notagsh"[4..] == "gsh";
  }

  // ---------------------------------------------------------------------------
  // from and getResourcesByType
  // ---------------------------------------------------------------------------

  /** The types the rows put. */
  function TypesOf(rows: seq<Row>): set<ResourceType> {
    set i | 0 <= i < |rows| :: rows[i].resourceType
  }

  /** The types of the ten rows, in order. */
  lemma ResourceTableTypes()
    ensures seq(|ResourceTable|, i requires 0 <= i < |ResourceTable| => ResourceTable[i].resourceType)
         == [GroovyScript, JavascriptScript, Xsd, MessageMapping, XsltMapping,
             Iflow, JavaArchive, Wsdl, Edmx, OperationMapping]
  {
  }

  /** The ten rows put ten distinct types. */
  lemma ResourceTableDistinct()
    ensures forall i, j :: 0 <= i < j < |ResourceTable| ==> ResourceTable[i].resourceType != ResourceTable[j].resourceType
  {
    ResourceTableTypes();
    var types := seq(|ResourceTable|, i requires 0 <= i < |ResourceTable| => ResourceTable[i].resourceType);
    forall i, j | 0 <= i < j < |ResourceTable|
      ensures ResourceTable[i].resourceType != ResourceTable[j].resourceType
    {
      assert types[i] == ResourceTable[i].resourceType && types[j] == ResourceTable[j].resourceType;
    }
  }

  /** The ten rows put ten distinct types, which are all the resource types. */
  lemma ResourceTableCoversEveryType()
    ensures forall t: ResourceType :: t in TypesOf(ResourceTable)
    ensures forall i, j :: 0 <= i < j < |ResourceTable| ==> ResourceTable[i].resourceType != ResourceTable[j].resourceType
  {
    ResourceTableDistinct();
    ResourceTableTypes();
    var types := seq(|ResourceTable|, i requires 0 <= i < |ResourceTable| => ResourceTable[i].resourceType);
    forall t: ResourceType
      ensures t in TypesOf(ResourceTable)
    {
      var i := match t
        case GroovyScript => 0
        case JavascriptScript => 1
        case Xsd => 2
        case MessageMapping => 3
        case XsltMapping => 4
        case Iflow => 5
        case JavaArchive => 6
        case Wsdl => 7
        case Edmx => 8
        case OperationMapping => 9;
      assert types[i] == t;
    }
  }

  /** The types of a row sequence are those of all rows but the last, plus the last one's. */
  lemma TypesOfLast(rows: seq<Row>)
    requires rows != []
    ensures TypesOf(rows) == TypesOf(rows[..|rows| - 1]) + {rows[|rows| - 1].resourceType}
  {
    var init := rows[..|rows| - 1];
    assert forall i :: 0 <= i < |init| ==> init[i] == rows[i];
    forall t | t in TypesOf(rows)
      ensures t in TypesOf(init) + {rows[|rows| - 1].resourceType}
    {
      var i :| 0 <= i < |rows| && rows[i].resourceType == t;
      if i < |init| {
        assert init[i].resourceType == t;
      }
    }
  }

  /** Successful puts leave exactly one key per row type. */
  lemma {:induction false} PutEachKeys(rows: seq<Row>, collect: Row -> Result<seq<Resource>, Error>)
    requires PutEach(rows, collect).Ok?
    ensures PutEach(rows, collect).value.Keys == TypesOf(rows)
    decreases |rows|
  {
    if rows != [] {
      var n := |rows| - 1;
      PutEachStep(rows, collect, n);
      assert rows[..n + 1] == rows;
      PutEachKeys(rows[..n], collect);
      TypesOfLast(rows);
    }
  }

  /** Puts of rows with distinct types leave, under each row's type, that row's collection. */
  lemma {:induction false} PutEachEntries(rows: seq<Row>, collect: Row -> Result<seq<Resource>, Error>)
    requires forall i, j :: 0 <= i < j < |rows| ==> rows[i].resourceType != rows[j].resourceType
    requires PutEach(rows, collect).Ok?
    ensures var m := PutEach(rows, collect).value;
            forall i :: 0 <= i < |rows| ==> rows[i].resourceType in m && collect(rows[i]) == Ok(m[rows[i].resourceType])
    decreases |rows|
  {
    if rows != [] {
      var n := |rows| - 1;
      var init := rows[..n];
      PutEachStep(rows, collect, n);
      assert rows[..n + 1] == rows;
      PutEachEntries(init, collect);
      var before := PutEach(init, collect).value;
      var m := PutEach(rows, collect).value;
      assert m == before[rows[n].resourceType := collect(rows[n]).value];
      forall i | 0 <= i < |rows|
        ensures rows[i].resourceType in m && collect(rows[i]) == Ok(m[rows[i].resourceType])
      {
        if i < n {
          assert init[i] == rows[i];
        }
      }
    }
  }

  /** One row's entry after puts of rows with distinct types: the key is present and holds that row's collection. */
  lemma PutEachEntryAt(rows: seq<Row>, collect: Row -> Result<seq<Resource>, Error>, i: nat)
    requires forall i, j :: 0 <= i < j < |rows| ==> rows[i].resourceType != rows[j].resourceType
    requires PutEach(rows, collect).Ok?
    requires i < |rows|
    ensures rows[i].resourceType in PutEach(rows, collect).value
    ensures collect(rows[i]) == Ok(PutEach(rows, collect).value[rows[i].resourceType])
  {
    PutEachEntries(rows, collect);
  }

  /** The sixth row collects the .iflw files of the iflow directory. */
  lemma IflowRow()
    ensures ResourceTable[5] == Row(Iflow, IflowDir, IflowPredicate)
  {
  }

  /** Each row's collection, with its override when it is the iflow row, is the entry under its type after the ten puts. */
  lemma ResourceTableEntry(pkg: Package, tag: Tag, iflowOverride: Option<Bytes>,
                           resources: map<ResourceType, seq<Resource>>, i: nat)
    requires PutEach(ResourceTable, RowCollector(pkg, tag, iflowOverride)) == Ok(resources)
    requires i < |ResourceTable|
    ensures var row := ResourceTable[i];
            && row.resourceType in resources
            && Collection(pkg, row.dir, tag, row.pred, row.resourceType, RowContent(row, iflowOverride))
               == Ok(resources[row.resourceType])
  {
    ResourceTableDistinct();
    var collect := RowCollector(pkg, tag, iflowOverride);
    PutEachEntryAt(ResourceTable, collect, i);
    var row := ResourceTable[i];
    assert collect(row) == Collection(pkg, row.dir, tag, row.pred, row.resourceType, RowContent(row, iflowOverride));
  }

  /** The steps of a successful from: the manifest, the tag, the single .iflw file and the override. */
  lemma AssembleSteps(pkg: Package, env: Collaborators)
    requires Assemble(pkg, env).Ok?
    ensures ReadNamed(pkg, ManifestDir, ManifestName).Ok?
    ensures CreateTag(ReadNamed(pkg, ManifestDir, ManifestName).value, env.parseManifest).Ok?
    ensures LocateIflowFile(pkg).Ok?
    ensures ParameterOverride(pkg, IflowXmlPath(pkg, LocateIflowFile(pkg).value), LocateIflowFile(pkg).value, env).Ok?
    ensures Assemble(pkg, env)
         == BuildArtifact(pkg, CreateTag(ReadNamed(pkg, ManifestDir, ManifestName).value, env.parseManifest).value,
                          LocateIflowFile(pkg).value,
                          ParameterOverride(pkg, IflowXmlPath(pkg, LocateIflowFile(pkg).value), LocateIflowFile(pkg).value, env).value)
  {
  }

  /** A built artifact carries the tag, the ten puts' map, and the iflow document of the raw .iflw bytes. */
  lemma BuildArtifactSteps(pkg: Package, tag: Tag, iflowFile: Entry, iflowOverride: Option<Bytes>)
    requires BuildArtifact(pkg, tag, iflowFile, iflowOverride).Ok?
    ensures var a := BuildArtifact(pkg, tag, iflowFile, iflowOverride).value;
            && a.tag == tag
            && PutEach(ResourceTable, RowCollector(pkg, tag, iflowOverride)) == Ok(a.resources)
            && iflowFile.body.Some?
            && a.iflowXml == IflowXml(iflowFile.body.value)
  {
  }

  /** from fails when the iflow directory cannot be listed or does not hold exactly one .iflw file. */
  lemma AssembleNeedsOneIflowFile(pkg: Package, env: Collaborators)
    requires ReadNamed(pkg, ManifestDir, ManifestName).Ok?
    requires CreateTag(ReadNamed(pkg, ManifestDir, ManifestName).value, env.parseManifest).Ok?
    ensures IflowDir !in pkg.dirs ==> Assemble(pkg, env) == Err(IflowDirectoryMissing)
    ensures IflowDir in pkg.dirs && |IflowFiles(pkg, pkg.dirs[IflowDir])| != 1 ==> Assemble(pkg, env) == Err(IflowNotUnique)
  {
  }

  /** Every built artifact has an entry for every resource type. */
  lemma BuildArtifactHasEveryType(pkg: Package, tag: Tag, iflowFile: Entry, iflowOverride: Option<Bytes>)
    requires BuildArtifact(pkg, tag, iflowFile, iflowOverride).Ok?
    ensures forall t: ResourceType :: t in BuildArtifact(pkg, tag, iflowFile, iflowOverride).value.resources
  {
    BuildArtifactSteps(pkg, tag, iflowFile, iflowOverride);
    ResourceTableCoversEveryType();
    PutEachKeys(ResourceTable, RowCollector(pkg, tag, iflowOverride));
  }

  /** A built artifact has an entry for every resource type, so getResourcesByType never fails on it. */
  lemma AssembleHasEveryType(pkg: Package, env: Collaborators)
    requires Assemble(pkg, env).Ok?
    ensures forall t: ResourceType :: t in Assemble(pkg, env).value.resources
    ensures forall t: ResourceType :: GetResourcesByType(Assemble(pkg, env).value, t).Ok?
  {
    AssembleSteps(pkg, env);
    var f := LocateIflowFile(pkg).value;
    BuildArtifactHasEveryType(pkg, CreateTag(ReadNamed(pkg, ManifestDir, ManifestName).value, env.parseManifest).value,
                              f, ParameterOverride(pkg, IflowXmlPath(pkg, f), f, env).value);
  }

  /** replaceExternalParameters: the stylesheet's output for the raw iflow bytes and the loaded parameters. */
  lemma ReplaceExternalParametersResult(pkg: Package, iflowXmlPath: string, iflowFile: Entry, env: Collaborators)
    requires ReplaceExternalParameters(pkg, iflowXmlPath, iflowFile, env).Ok?
    ensures iflowFile.body.Some?
    ensures Exists(pkg, ResourcesBase, ParametersName)
    ensures var props := Find(pkg.dirs[ResourcesBase], ParametersName).value;
            && props.body.Some?
            && env.loadProperties(props.body.value).Some?
            && env.transform(iflowFile.body.value, env.loadProperties(props.body.value).value)
                 == Some(ReplaceExternalParameters(pkg, iflowXmlPath, iflowFile, env).value)
  {
  }

  /** The override is the parameters transform when parameters.prop exists, and absent otherwise. */
  lemma ParameterOverrideValue(pkg: Package, iflowXmlPath: string, iflowFile: Entry, env: Collaborators)
    requires ParameterOverride(pkg, iflowXmlPath, iflowFile, env).Ok?
    ensures var o := ParameterOverride(pkg, iflowXmlPath, iflowFile, env).value;
            && (o.Some? <==> Exists(pkg, ResourcesBase, ParametersName))
            && (o.Some? ==> ReplaceExternalParameters(pkg, iflowXmlPath, iflowFile, env) == Ok(o.value))
  {
  }

  /** The artifact's iflow document is parsed from the raw bytes of the single .iflw file, override or not. */
  lemma AssembleIflowXmlFromRawFile(pkg: Package, env: Collaborators)
    requires Assemble(pkg, env).Ok?
    ensures LocateIflowFile(pkg).Ok?
    ensures var f := LocateIflowFile(pkg).value;
            f.body.Some? && Assemble(pkg, env).value.iflowXml == IflowXml(f.body.value)
  {
    AssembleSteps(pkg, env);
    var f := LocateIflowFile(pkg).value;
    BuildArtifactSteps(pkg, CreateTag(ReadNamed(pkg, ManifestDir, ManifestName).value, env.parseManifest).value,
                       f, ParameterOverride(pkg, IflowXmlPath(pkg, f), f, env).value);
  }

  /** The iflow collection over a directory holding one .iflw file is that one file's resource. */
  lemma IflowCollectionOfSingleFile(pkg: Package, tag: Tag, iflowOverride: Option<Bytes>, f: Entry)
    requires WellFormedPackage(pkg)
    requires IflowDir in pkg.dirs && IflowFiles(pkg, pkg.dirs[IflowDir]) == [f]
    requires Collection(pkg, IflowDir, tag, IflowPredicate, Iflow, iflowOverride).Ok?
    ensures iflowOverride.None? ==> f.body.Some?
    ensures Collection(pkg, IflowDir, tag, IflowPredicate, Iflow, iflowOverride).value
         == [Resource(tag, Iflow, f.name, if iflowOverride.Some? then iflowOverride.value else f.body.value)]
  {
    CollectionOfListedDirectory(pkg, IflowDir, tag, IflowPredicate, Iflow, iflowOverride);
  }

  /** The iflow entry of a built artifact is the resource of its single .iflw file, carrying the override if any. */
  lemma BuildArtifactIflowResource(pkg: Package, tag: Tag, iflowFile: Entry, iflowOverride: Option<Bytes>)
    requires WellFormedPackage(pkg)
    requires LocateIflowFile(pkg) == Ok(iflowFile)
    requires BuildArtifact(pkg, tag, iflowFile, iflowOverride).Ok?
    ensures var a := BuildArtifact(pkg, tag, iflowFile, iflowOverride).value;
            && Iflow in a.resources
            && iflowFile.body.Some?
            && a.resources[Iflow]
               == [Resource(tag, Iflow, iflowFile.name,
                            if iflowOverride.Some? then iflowOverride.value else iflowFile.body.value)]
  {
    BuildArtifactSteps(pkg, tag, iflowFile, iflowOverride);
    var resources := BuildArtifact(pkg, tag, iflowFile, iflowOverride).value.resources;
    assert IflowFiles(pkg, pkg.dirs[IflowDir]) == [iflowFile];
    IflowEntryOfPuts(pkg, tag, iflowOverride, iflowFile, resources);
  }

  /** After the ten puts over a package with one .iflw file, the iflow entry is that file's resource. */
  lemma IflowEntryOfPuts(pkg: Package, tag: Tag, iflowOverride: Option<Bytes>, f: Entry,
                         resources: map<ResourceType, seq<Resource>>)
    requires WellFormedPackage(pkg)
    requires IflowDir in pkg.dirs && IflowFiles(pkg, pkg.dirs[IflowDir]) == [f]
    requires PutEach(ResourceTable, RowCollector(pkg, tag, iflowOverride)) == Ok(resources)
    ensures Iflow in resources
    ensures iflowOverride.None? ==> f.body.Some?
    ensures resources[Iflow] == [Resource(tag, Iflow, f.name, if iflowOverride.Some? then iflowOverride.value else f.body.value)]
  {
    ResourceTableEntry(pkg, tag, iflowOverride, resources, 5);
    IflowRow();
    IflowCollectionOfSingleFile(pkg, tag, iflowOverride, f);
  }

  /**
   * The iflow resource of a built artifact is the single .iflw file, carrying the
   * parameters transform of its bytes when parameters.prop exists, else its raw bytes.
   */
  lemma AssembleIflowResource(pkg: Package, env: Collaborators)
    requires WellFormedPackage(pkg)
    requires Assemble(pkg, env).Ok?
    ensures LocateIflowFile(pkg).Ok?
    ensures var f := LocateIflowFile(pkg).value;
            var a := Assemble(pkg, env).value;
            && Iflow in a.resources
            && (!Exists(pkg, ResourcesBase, ParametersName) ==>
                  f.body.Some? && a.resources[Iflow] == [Resource(a.tag, Iflow, f.name, f.body.value)])
            && (Exists(pkg, ResourcesBase, ParametersName) ==>
                  ReplaceExternalParameters(pkg, IflowXmlPath(pkg, f), f, env).Ok?
                  && a.resources[Iflow]
                     == [Resource(a.tag, Iflow, f.name, ReplaceExternalParameters(pkg, IflowXmlPath(pkg, f), f, env).value)])
  {
    AssembleSteps(pkg, env);
    var f := LocateIflowFile(pkg).value;
    var tag := CreateTag(ReadNamed(pkg, ManifestDir, ManifestName).value, env.parseManifest).value;
    ParameterOverrideValue(pkg, IflowXmlPath(pkg, f), f, env);
    var iflowOverride := ParameterOverride(pkg, IflowXmlPath(pkg, f), f, env).value;
    BuildArtifactSteps(pkg, tag, f, iflowOverride);
    BuildArtifactIflowResource(pkg, tag, f, iflowOverride);
  }

  /** Every type but the iflow is collected without override: its resources carry their files' own bytes. */
  lemma BuildArtifactOtherTypes(pkg: Package, tag: Tag, iflowFile: Entry, iflowOverride: Option<Bytes>, i: nat)
    requires BuildArtifact(pkg, tag, iflowFile, iflowOverride).Ok?
    requires i < |ResourceTable| && ResourceTable[i].resourceType != Iflow
    ensures var a := BuildArtifact(pkg, tag, iflowFile, iflowOverride).value;
            var row := ResourceTable[i];
            row.resourceType in a.resources
            && Collection(pkg, row.dir, tag, row.pred, row.resourceType, None) == Ok(a.resources[row.resourceType])
  {
    BuildArtifactSteps(pkg, tag, iflowFile, iflowOverride);
    var resources := BuildArtifact(pkg, tag, iflowFile, iflowOverride).value.resources;
    ResourceTableEntry(pkg, tag, iflowOverride, resources, i);
  }

  /** Every type but the iflow is collected from its own directory without override, in a built artifact. */
  lemma AssembleOtherTypesReadTheirFiles(pkg: Package, env: Collaborators, i: nat)
    requires Assemble(pkg, env).Ok?
    requires i < |ResourceTable| && ResourceTable[i].resourceType != Iflow
    ensures var a := Assemble(pkg, env).value;
            var row := ResourceTable[i];
            row.resourceType in a.resources
            && Collection(pkg, row.dir, a.tag, row.pred, row.resourceType, None) == Ok(a.resources[row.resourceType])
  {
    AssembleSteps(pkg, env);
    var f := LocateIflowFile(pkg).value;
    var tag := CreateTag(ReadNamed(pkg, ManifestDir, ManifestName).value, env.parseManifest).value;
    var iflowOverride := ParameterOverride(pkg, IflowXmlPath(pkg, f), f, env).value;
    BuildArtifactSteps(pkg, tag, f, iflowOverride);
    BuildArtifactOtherTypes(pkg, tag, f, iflowOverride, i);
  }

  /** Without parameters.prop the override is absent whatever the properties loader and stylesheet do. */
  lemma ParameterOverrideWithoutParameters(pkg: Package, iflowXmlPath: string, iflowFile: Entry, env: Collaborators)
    requires !Exists(pkg, ResourcesBase, ParametersName)
    ensures ParameterOverride(pkg, iflowXmlPath, iflowFile, env) == Ok(None)
  {
  }

  /** Without parameters.prop neither the properties loader nor the stylesheet is consulted. */
  lemma AssembleIgnoresResolverWithoutParameters(pkg: Package, env: Collaborators,
                                                 loadProperties: Bytes -> Option<Params>,
                                                 transform: (Bytes, Params) -> Option<Bytes>)
    requires !Exists(pkg, ResourcesBase, ParametersName)
    ensures Assemble(pkg, env) == Assemble(pkg, env.(loadProperties := loadProperties, transform := transform))
  {
    var other := env.(loadProperties := loadProperties, transform := transform);
    assert other.parseManifest == env.parseManifest;
    if LocateIflowFile(pkg).Ok? {
      var f := LocateIflowFile(pkg).value;
      ParameterOverrideWithoutParameters(pkg, IflowXmlPath(pkg, f), f, env);
      ParameterOverrideWithoutParameters(pkg, IflowXmlPath(pkg, f), f, other);
    }
  }
}
