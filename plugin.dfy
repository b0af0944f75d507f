/**
 * The plugin as installed on a schema, and the documents' `lock` and `release`
 * methods acting on the model's collection.
 *
 * `LockableModel` stands for the model named at installation: its `docs` field is the
 * collection, which `lock` and `release` update in place. A document method's `this._id`
 * becomes the `id` argument, and the clock value `new Date()` yields becomes `now`.
 */
module LockReleasePlugin {
  import opened Wrappers
  import opened Lease

  /** A model name the guard lets through: present and not the empty string. */
  type ModelName = s: string | s != "" witness "Model"

  const ModelNameRequired := "modelName is required"

  /** The guard on installation. JavaScript treats a missing (`undefined`, `null`) or empty
      name as false, and the plugin then throws before it adds anything. */
  function CheckModelName(modelName: Option<string>): (r: Result<ModelName, string>)
    ensures r.Failure? <==> modelName.None? || modelName.value == ""
    ensures r.Failure? ==> r.error == ModelNameRequired
    ensures r.Success? ==> r.value == modelName.value
  {
    match modelName
    case None => Failure(ModelNameRequired)
    case Some(name) => if name == "" then Failure(ModelNameRequired) else Success(name)
  }

  class LockableModel<D> {
    /** The name passed to the plugin; `this.model(modelName)` selects this collection. */
    const modelName: ModelName
    /** The collection: each document under its `_id`. */
    var docs: Store<D>

    ghost predicate Valid()
      reads this
    {
      WellKeyed(docs)
    }

    constructor (modelName: ModelName)
      ensures Valid() && this.modelName == modelName && docs == map[]
    {
      this.modelName := modelName;
      docs := map[];
    }

    /** Installing the plugin: a missing or empty name throws, so no lockable model, and
        hence no `lock` or `release`, ever exists without a name. */
    static method Install(modelName: Option<string>) returns (r: Result<LockableModel<D>, string>)
      ensures r.Failure? <==> CheckModelName(modelName).Failure?
      ensures r.Failure? ==> r.error == ModelNameRequired
      ensures r.Success? ==> fresh(r.value) && r.value.Valid() && r.value.docs == map[] &&
                             r.value.modelName == CheckModelName(modelName).value
    {
      var checked := CheckModelName(modelName);
      match checked
      case Failure(e) =>
        r := Failure(e);
      case Success(name) =>
        var m := new LockableModel(name);
        r := Success(m);
    }

    /** Saving a new document without a `locked` value: the schema default stamps it
        with the creation time, so it starts free. */
    method Create(id: ObjectId, data: D, now: Time) returns (r: Option<Doc<D>>)
      requires Valid()
      modifies this
      ensures Valid()
      ensures r == Insert(old(docs), id, data, now).result
      ensures docs == Insert(old(docs), id, data, now).store
    {
      if id in docs {
        r := None;
      } else {
        var doc := Doc(id, now, data);
        docs := docs[id := doc];
        r := Some(doc);
      }
    }

    /** `doc.lock(duration)`: one atomic conditional update, with one clock reading used
        both in the freedom test and for the new lease end. */
    method Lock(id: ObjectId, duration: int, now: Time) returns (r: Option<Doc<D>>)
      requires Valid()
      modifies this
      ensures Valid()
      ensures r == LockStep(old(docs), id, now, duration).result
      ensures docs == LockStep(old(docs), id, now, duration).store
      ensures r.Some? ==> r.value.id == id
    {
      if id in docs && docs[id].locked <= now {
        var doc := docs[id].(locked := now + duration);
        docs := docs[id := doc];
        r := Some(doc);
      } else {
        r := None;
      }
    }

    /** `doc.release()`: one unconditional update setting the lease end to the clock. */
    method Release(id: ObjectId, now: Time) returns (r: Option<Doc<D>>)
      requires Valid()
      modifies this
      ensures Valid()
      ensures r == ReleaseStep(old(docs), id, now).result
      ensures docs == ReleaseStep(old(docs), id, now).store
      ensures r.Some? ==> r.value.id == id
    {
      if id in docs {
        var doc := docs[id].(locked := now);
        docs := docs[id := doc];
        r := Some(doc);
      } else {
        r := None;
      }
    }
  }

  /** The sequence the test suite runs on one saved document, through the model:
      lock, a refused second lock, release, and a lock after the release. */
  method SavedDocumentLifecycle<D>(id: ObjectId, data: D, created: Time, t1: Time, t2: Time, t3: Time, t4: Time, lockTime: int)
    returns (first: Option<Doc<D>>, second: Option<Doc<D>>, released: Option<Doc<D>>, again: Option<Doc<D>>)
    requires created <= t1 <= t2 < t1 + lockTime && t3 <= t4
    ensures first.Some? && first.value.locked == t1 + lockTime && first.value.data == data
    ensures second.None?
    ensures released.Some? && released.value.locked == t3
    ensures again.Some? && again.value.locked == t4 + lockTime
  {
    var m := new LockableModel<D>("MySchema");
    var saved := m.Create(id, data, created);
    first := m.Lock(id, lockTime, t1);
    second := m.Lock(id, lockTime, t2);
    released := m.Release(id, t3);
    again := m.Lock(id, lockTime, t4);
  }
}
