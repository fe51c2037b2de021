/** The YAML pipeline of bin/generate.js:47-64: for every `--yaml` group, the
    documents under the group's `.insomnia` directory are loaded, retagged and
    collected into `{ resources: [...] }`, which is written to `<name>.json`.
    Any exception inside one group is caught, so that group writes nothing and
    the other groups go on. */
module YamlPipeline {
  import opened Wrappers
  import opened Documents
  import opened Hosts
  import SnakeCasing

  /** The pattern appended to a group's directory (bin/generate.js:48). */
  const GLOB_SUFFIX: string := "\\.insomnia\\**\\*.yml"

  function GlobPattern(root: string): string
  {
    root + GLOB_SUFFIX
  }

  /** The file a group is written to, relative to the output directory. */
  function OutputFile(name: string): string
  {
    name + ".json"
  }

  /** One iteration of the `for` loop: load a file and retag the document. */
  function LoadAndRetag(file: string, host: Host): Result<Doc, Error>
  {
    match host.load(file)
    case None => Failure(LoadFailed(file))
    case Some(v) => RetagLoaded(v)
  }

  /** The `for` loop over a group's files: the retagged documents in order, or
      the first exception, after which no further file is looked at. */
  function ProcessFiles(files: seq<string>, host: Host): Result<seq<Doc>, Error>
    decreases |files|
  {
    if files == [] then Success([])
    else
      var done := ProcessFiles(files[..|files| - 1], host);
      var last := LoadAndRetag(files[|files| - 1], host);
      if done.Failure? then done
      else if last.Failure? then Failure(last.error)
      else Success(done.value + [last.value])
  }

  /** The whole `try` block of one group: the loop, then the write. */
  function GroupOutput(name: string, root: string, host: Host): Result<seq<Doc>, Error>
  {
    var docs := ProcessFiles(host.glob(GlobPattern(root)), host);
    if docs.Failure? then docs
    else if !host.writable(OutputFile(name)) then Failure(WriteFailed(OutputFile(name)))
    else docs
  }

  /** The files the pipeline writes: group name to `resources`, for every
      group whose `try` block completes. */
  function YamlOutput(yaml: map<string, string>, host: Host): map<string, seq<Doc>>
  {
    map name | name in yaml && GroupOutput(name, yaml[name], host).Success?
      :: GroupOutput(name, yaml[name], host).value
  }

  /** `ProcessFiles` on a non-empty list, in terms of the list without its
      last file. */
  lemma ProcessFilesLast(files: seq<string>, host: Host)
    requires files != []
    ensures var init := ProcessFiles(files[..|files| - 1], host);
      var last := LoadAndRetag(files[|files| - 1], host);
      ProcessFiles(files, host)
        == if init.Failure? then init
           else if last.Failure? then Failure(last.error)
           else Success(init.value + [last.value])
  {
  }

  /** A group's files all succeed exactly when each one loads and retags. */
  lemma {:induction false} ProcessFilesSuccess(files: seq<string>, host: Host)
    ensures ProcessFiles(files, host).Success?
            <==> forall i :: 0 <= i < |files| ==> LoadAndRetag(files[i], host).Success?
    decreases |files|
  {
    if files != [] {
      var init := files[..|files| - 1];
      ProcessFilesSuccess(init, host);
      ProcessFilesLast(files, host);
      assert forall i :: 0 <= i < |init| ==> init[i] == files[i];
    }
  }

  /** When they do, `resources` holds one retagged document per file, in the
      order the files were matched. */
  lemma {:induction false} ProcessFilesContents(files: seq<string>, host: Host)
    requires ProcessFiles(files, host).Success?
    ensures var docs := ProcessFiles(files, host).value;
      && |docs| == |files|
      && forall i :: 0 <= i < |files| ==>
           LoadAndRetag(files[i], host).Success? && docs[i] == LoadAndRetag(files[i], host).value
    decreases |files|
  {
    if files != [] {
      var init := files[..|files| - 1];
      ProcessFilesLast(files, host);
      ProcessFilesContents(init, host);
      var prev := ProcessFiles(init, host).value;
      var docs := ProcessFiles(files, host).value;
      assert docs == prev + [LoadAndRetag(files[|files| - 1], host).value];
      forall i | 0 <= i < |init|
        ensures LoadAndRetag(files[i], host).Success? && docs[i] == LoadAndRetag(files[i], host).value
      {
        assert init[i] == files[i] && docs[i] == prev[i];
      }
    }
  }

  /** A failing group reports the exception of its first failing file. */
  lemma {:induction false} ProcessFilesFirstFailure(files: seq<string>, host: Host)
    requires ProcessFiles(files, host).Failure?
    ensures exists i :: (0 <= i < |files|
      && LoadAndRetag(files[i], host) == Failure(ProcessFiles(files, host).error)
      && (forall k :: 0 <= k < i ==> LoadAndRetag(files[k], host).Success?))
    decreases |files|
  {
    var init := files[..|files| - 1];
    var n := |files| - 1;
    ProcessFilesLast(files, host);
    if ProcessFiles(init, host).Failure? {
      ProcessFilesFirstFailure(init, host);
      var i :| 0 <= i < |init|
        && LoadAndRetag(init[i], host) == Failure(ProcessFiles(init, host).error)
        && (forall k :: 0 <= k < i ==> LoadAndRetag(init[k], host).Success?);
      assert files[i] == init[i];
      assert forall k :: 0 <= k < i ==> files[k] == init[k];
    } else {
      ProcessFilesSuccess(init, host);
      assert forall k :: 0 <= k < n ==> files[k] == init[k];
    }
  }

  /** Once the loop has thrown, later files change nothing. */
  lemma {:induction false} ProcessFilesStops(files: seq<string>, j: nat, host: Host)
    requires j <= |files| && ProcessFiles(files[..j], host).Failure?
    ensures ProcessFiles(files, host) == ProcessFiles(files[..j], host)
    decreases |files| - j
  {
    if j < |files| {
      assert files[..j + 1][..j] == files[..j];
      ProcessFilesStops(files, j + 1, host);
    } else {
      assert files[..j] == files;
    }
  }

  /** `try { for (const yml of ymls) { ... } mkdirp.sync(...); fs.writeFileSync(...) }`
      for one group: the documents it writes, or the exception it catches. */
  method ProcessGroup(name: string, root: string, host: Host) returns (out: Result<seq<Doc>, Error>)
    ensures out == GroupOutput(name, root, host)
  {
    var ymls := host.glob(GlobPattern(root));
    var resources: seq<Doc> := [];
    var caught: Option<Error> := None;
    var j := 0;
    while j < |ymls| && caught.None?
      invariant 0 <= j <= |ymls|
      invariant caught.None? ==> ProcessFiles(ymls[..j], host) == Success(resources)
      invariant caught.Some? ==> ProcessFiles(ymls[..j], host) == Failure(caught.value)
      decreases |ymls| - j
    {
      assert ymls[..j + 1][..j] == ymls[..j];
      var yml := ymls[j];
      var loaded := host.load(yml);
      if loaded.None? {
        caught := Some(LoadFailed(yml));
      } else if !loaded.value.Mapping?
        || TYPE_KEY !in loaded.value.fields || !loaded.value.fields[TYPE_KEY].Str? {
        caught := Some(TypeError);
      } else {
        var doc := loaded.value.fields;
        doc := doc[TAG_KEY := Str(SnakeCasing.SnakeCase(doc[TYPE_KEY].s))];
        doc := doc - {TYPE_KEY};
        resources := resources + [doc];
      }
      j := j + 1;
    }
    if caught.Some? {
      ProcessFilesStops(ymls, j, host);
      out := Failure(caught.value);
    } else {
      assert ymls[..j] == ymls;
      if !host.writable(OutputFile(name)) {
        out := Failure(WriteFailed(OutputFile(name)));
      } else {
        out := Success(resources);
      }
    }
  }

  /** `Object.entries(yaml).forEach(...)`: `order` is the order in which the
      entries are enumerated; every group is tried in turn and the output of
      each one whose `try` block completes is recorded. */
  method GenerateYaml(yaml: map<string, string>, order: seq<string>, host: Host)
    returns (written: map<string, seq<Doc>>)
    requires forall name :: name in yaml <==> name in order
    ensures written == YamlOutput(yaml, host)
  {
    written := map[];
    var i := 0;
    while i < |order|
      invariant 0 <= i <= |order|
      invariant forall name :: name in written <==>
        name in order[..i] && GroupOutput(name, yaml[name], host).Success?
      invariant forall name :: name in written ==>
        written[name] == GroupOutput(name, yaml[name], host).value
    {
      var name := order[i];
      assert order[..i + 1] == order[..i] + [name];
      var out := ProcessGroup(name, yaml[name], host);
      if out.Success? {
        written := written[name := out.value];
      }
      i := i + 1;
    }
    assert order[..i] == order;
  }

  /** A group's file is written exactly when every one of its files loads and
      retags and the write succeeds; it then holds one retagged document per
      matched file, in the order matched. */
  lemma GroupWritten(yaml: map<string, string>, name: string, host: Host)
    requires name in yaml
    ensures var files := host.glob(GlobPattern(yaml[name]));
      && (name in YamlOutput(yaml, host) <==>
          (forall i :: 0 <= i < |files| ==> LoadAndRetag(files[i], host).Success?)
          && host.writable(OutputFile(name)))
      && (name in YamlOutput(yaml, host) ==>
          && |YamlOutput(yaml, host)[name]| == |files|
          && forall i :: 0 <= i < |files| ==>
               YamlOutput(yaml, host)[name][i] == LoadAndRetag(files[i], host).value)
  {
    var files := host.glob(GlobPattern(yaml[name]));
    ProcessFilesSuccess(files, host);
    if ProcessFiles(files, host).Success? {
      ProcessFilesContents(files, host);
    }
  }

  /** Two hosts that give a group the same matched files, the same loaded
      documents and the same outcome for its write. */
  predicate SameGroupInputs(name: string, root: string, h1: Host, h2: Host)
  {
    var files := h1.glob(GlobPattern(root));
    && h2.glob(GlobPattern(root)) == files
    && (forall i :: 0 <= i < |files| ==> h1.load(files[i]) == h2.load(files[i]))
    && h1.writable(OutputFile(name)) == h2.writable(OutputFile(name))
  }

  lemma {:induction false} ProcessFilesSameInputs(files: seq<string>, h1: Host, h2: Host)
    requires forall i :: 0 <= i < |files| ==> h1.load(files[i]) == h2.load(files[i])
    ensures ProcessFiles(files, h1) == ProcessFiles(files, h2)
    decreases |files|
  {
    if files != [] {
      var init := files[..|files| - 1];
      assert forall i :: 0 <= i < |init| ==> init[i] == files[i];
      ProcessFilesSameInputs(init, h1, h2);
    }
  }

  /** Groups are isolated from one another: whatever happens to the files of
      group `name`, every other group writes the same thing. */
  lemma GroupsIsolated(yaml: map<string, string>, name: string, h1: Host, h2: Host)
    requires forall other :: other in yaml && other != name ==>
      SameGroupInputs(other, yaml[other], h1, h2)
    ensures forall other :: other != name ==>
      (other in YamlOutput(yaml, h1) <==> other in YamlOutput(yaml, h2))
    ensures forall other :: other != name && other in YamlOutput(yaml, h1) ==>
      YamlOutput(yaml, h1)[other] == YamlOutput(yaml, h2)[other]
  {
    forall other | other in yaml && other != name
      ensures GroupOutput(other, yaml[other], h1) == GroupOutput(other, yaml[other], h2)
    {
      ProcessFilesSameInputs(h1.glob(GlobPattern(yaml[other])), h1, h2);
    }
  }

  /** A group whose `try` block throws leaves the output as if it had not
      been given at all. */
  lemma FailedGroupDropped(yaml: map<string, string>, name: string, host: Host)
    requires name in yaml && GroupOutput(name, yaml[name], host).Failure?
    ensures YamlOutput(yaml, host) == YamlOutput(yaml - {name}, host)
  {
  }
}
