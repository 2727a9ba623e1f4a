/** A record as the scripts see it after `json.load`/`json.loads`: a JSON object
    whose string members, `tags` array and `_id` object are kept apart. */
module Records {
  import opened Common

  datatype Record = Record(
    fields: map<string, string>,        // the string-valued members
    tags: Option<seq<string>>,          // the `tags` array, when present
    id: Option<map<string, string>>)    // the members of the `_id` object, when present

  /** `rec.get(key, '')`. */
  function Get(rec: Record, key: string): (v: string)
    ensures key !in rec.fields ==> v == ""
    ensures key in rec.fields ==> v == rec.fields[key]
  {
    if key in rec.fields then rec.fields[key] else ""
  }

  /** `rec.get('tags', [])`. */
  function TagList(rec: Record): (ts: seq<string>)
    ensures rec.tags.None? ==> ts == []
    ensures rec.tags.Some? ==> ts == rec.tags.value
  {
    rec.tags.GetOr([])
  }

  /** `data.get('_id', {}).get('$oid', '')`: the legacy identifier, `''` when the
      record has no `_id` object or that object has no `$oid` member. */
  function Oid(rec: Record): (oid: string)
    ensures rec.id.None? ==> oid == ""
    ensures rec.id.Some? && "$oid" !in rec.id.value ==> oid == ""
    ensures rec.id.Some? && "$oid" in rec.id.value ==> oid == rec.id.value["$oid"]
  {
    var obj := rec.id.GetOr(map[]);
    if "$oid" in obj then obj["$oid"] else ""
  }
}
