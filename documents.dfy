/** The documents of an Insomnia export as `js-yaml` loads them, and the
    retagging that bin/generate.js:55-56 applies to each one. */
module Documents {
  import opened Wrappers
  import SnakeCasing

  /** A loaded YAML value. A mapping is a JavaScript object keyed by strings. */
  datatype Value =
    | Null
    | Bool(b: bool)
    | Number(n: int)
    | Str(s: string)
    | List(items: seq<Value>)
    | Mapping(fields: map<string, Value>)

  /** A loaded document that is a mapping. */
  type Doc = map<string, Value>

  /** The exceptions the YAML pipeline can meet for one group. */
  datatype Error =
    | LoadFailed(file: string)   // readFileSync or yamljs.load threw
    | TypeError                  // snakeCase was called on something that is not a string
    | WriteFailed(file: string)  // mkdirp.sync or writeFileSync threw

  const TYPE_KEY: string := "type"
  const TAG_KEY: string := "_type"

  /** `doc._type = snakeCase(doc.type); delete doc.type;` on a mapping.
      `snakeCase` calls `.replace` on its argument, which throws a TypeError
      unless `doc.type` is a string, and then nothing is assigned. */
  function Retag(doc: Doc): (r: Result<Doc, Error>)
    ensures r.Success? <==> TYPE_KEY in doc && doc[TYPE_KEY].Str?
    ensures r.Failure? ==> r.error == TypeError
    ensures r.Success? ==>
      && r.value.Keys == doc.Keys - {TYPE_KEY} + {TAG_KEY}
      && r.value[TAG_KEY] == Str(SnakeCasing.SnakeCase(doc[TYPE_KEY].s))
      && (forall k :: k in doc && k != TYPE_KEY && k != TAG_KEY ==> r.value[k] == doc[k])
  {
    if TYPE_KEY in doc && doc[TYPE_KEY].Str? then
      Success(doc[TAG_KEY := Str(SnakeCasing.SnakeCase(doc[TYPE_KEY].s))] - {TYPE_KEY})
    else
      Failure(TypeError)
  }

  /** Retagging a loaded value: reading `doc.type` of a value that is not a
      mapping gives `undefined` (or throws, for null), so `snakeCase` throws. */
  function RetagLoaded(v: Value): (r: Result<Doc, Error>)
    ensures r.Success? <==> v.Mapping? && TYPE_KEY in v.fields && v.fields[TYPE_KEY].Str?
    ensures r.Failure? ==> r.error == TypeError
    ensures v.Mapping? ==> r == Retag(v.fields)
  {
    if v.Mapping? then Retag(v.fields) else Failure(TypeError)
  }

  /** The tag a retagged document carries is already in normal form. */
  lemma RetagTagIsNormal(doc: Doc)
    requires Retag(doc).Success?
    ensures var tag := Retag(doc).value[TAG_KEY].s;
      SnakeCasing.AllSnake(tag) && SnakeCasing.SnakeCase(tag) == tag
  {
    SnakeCasing.SnakeCaseAlphabet(doc[TYPE_KEY].s);
    SnakeCasing.SnakeCaseIdempotent(doc[TYPE_KEY].s);
  }

  /** A retagged document has no `type` left, so it cannot be retagged again. */
  lemma RetagTwiceFails(doc: Doc)
    requires Retag(doc).Success?
    ensures Retag(Retag(doc).value) == Failure(TypeError)
  {
  }
}
