/** The registry of supported model clients and the settings each one needs. */
module Common {
  import opened Wrappers
  import opened Exceptions

  /** A registry entry's value: a name or a list of strings. */
  datatype Field = FieldStr(s: string) | FieldList(items: seq<string>)

  /** A registry entry, a Python dict. */
  type Info = map<string, Field>

  function Entry(name: string, models: seq<string>, required: seq<string>): Info {
    map["name" := FieldStr(name), "models" := FieldList(models), "required" := FieldList(required)]
  }

  /** `model_base_info()`. */
  function ModelBaseInfo(): seq<Info> {
    [ Entry("OpenAIModel", ["gpt-3.5-turbo"], ["api_key"]),
      Entry("GLMModel", ["chatglm-6b"], ["model_url", "timeout"]),
      Entry("QWenModel", ["qwen-v1"], ["api_key", "api_url", "timeout"]) ]
  }

  predicate Named(info: Info, name: string) {
    "name" in info && info["name"] == FieldStr(name)
  }

  /** The position of the first entry named `name`, if any. */
  function FirstNamed(infos: seq<Info>, name: string): (r: Option<nat>)
    ensures r.None? <==> forall i :: 0 <= i < |infos| ==> !Named(infos[i], name)
    ensures r.Some? ==> r.value < |infos| && Named(infos[r.value], name)
    ensures r.Some? ==> forall j :: 0 <= j < r.value ==> !Named(infos[j], name)
  {
    if infos == [] then None
    else if Named(infos[0], name) then Some(0)
    else
      assert forall i :: 1 <= i < |infos| ==> infos[i] == infos[1..][i - 1];
      match FirstNamed(infos[1..], name)
      case None => None
      case Some(k) => Some(k + 1)
  }

  /** `model_types()`: the entries' names, in order. */
  function ModelTypes(): (r: seq<string>)
    ensures r == ["OpenAIModel", "GLMModel", "QWenModel"]
  {
    var infos := ModelBaseInfo();
    seq(|infos|, i requires 0 <= i < |infos| => if "name" in infos[i] && infos[i]["name"].FieldStr? then infos[i]["name"].s else "")
  }

  /** `model_info(model_type)`. */
  function ModelInfo(modelType: string): (r: Info)
    ensures r == map[] <==> modelType !in ModelTypes()
    ensures modelType in ModelTypes() ==> Named(r, modelType)
  {
    var infos := ModelBaseInfo();
    assert Named(infos[0], "OpenAIModel") && Named(infos[1], "GLMModel") && Named(infos[2], "QWenModel");
    match FirstNamed(infos, modelType)
    case None => map[]
    case Some(i) => infos[i]
  }

  /** `info[key]` for a list-valued key: the list, or `KeyError`. */
  function ListField(info: Info, key: string): Result<seq<string>, Error> {
    if key in info && info[key].FieldList? then Ok(info[key].items) else Err(KeyMissing(key))
  }

  /** `model_names(model_type)`. */
  function ModelNames(modelType: string): Result<seq<string>, Error> {
    ListField(ModelInfo(modelType), "models")
  }

  /** `model_required(model_type)`. */
  function ModelRequired(modelType: string): Result<seq<string>, Error> {
    ListField(ModelInfo(modelType), "required")
  }

  /** `model_if_need_key(model_type)`: looks up an `APIKey` field. */
  function ModelIfNeedKey(modelType: string): Result<Field, Error> {
    var info := ModelInfo(modelType);
    if "APIKey" in info then Ok(info["APIKey"]) else Err(KeyMissing("APIKey"))
  }

  /** The names and required settings are found exactly for the registered types. */
  lemma KnownTypes(modelType: string)
    ensures ModelNames(modelType).Ok? <==> modelType in ModelTypes()
    ensures ModelRequired(modelType).Ok? <==> modelType in ModelTypes()
    ensures modelType !in ModelTypes() ==> ModelNames(modelType) == Err(KeyMissing("models"))
    ensures modelType !in ModelTypes() ==> ModelRequired(modelType) == Err(KeyMissing("required"))
  {
    var infos := ModelBaseInfo();
    if modelType in ModelTypes() {
      var i := FirstNamed(infos, modelType).value;
      assert "models" in infos[i] && "required" in infos[i];
    }
  }

  /** The QWen client needs an API key, an API URL and a timeout. */
  lemma QWenRequirements()
    ensures ModelRequired("QWenModel") == Ok(["api_key", "api_url", "timeout"])
    ensures ModelNames("QWenModel") == Ok(["qwen-v1"])
  {
    var infos := ModelBaseInfo();
    assert !Named(infos[0], "QWenModel") && !Named(infos[1], "QWenModel") && Named(infos[2], "QWenModel");
    assert FirstNamed(infos, "QWenModel") == Some(2);
  }

  /** No entry has an `APIKey` field, so `model_if_need_key` fails for every type. */
  lemma NeedKeyAlwaysFails(modelType: string)
    ensures ModelIfNeedKey(modelType) == Err(KeyMissing("APIKey"))
  {
    var infos := ModelBaseInfo();
    assert forall i :: 0 <= i < |infos| ==> "APIKey" !in infos[i];
  }
}
