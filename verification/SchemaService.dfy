/** The schema cache and the template handlers as objects, with every call run to its
    end before the next: then the cache always agrees with the table, and a cached
    lookup returns what the table holds. */
module SchemaService {
  import opened Text
  import opened Json
  import opened Identifiers
  import opened SchemaCache

  /** `InMemorySchemaCache`. */
  class InMemorySchemaCache {
    var schemas: map<string, Json>

    constructor ()
      ensures schemas == map[]
    {
      schemas := map[];
    }

    method Get(key: string) returns (schema: Option<Json>)
      ensures schema == if key in schemas then Some(schemas[key]) else None
    {
      schema := if key in schemas then Some(schemas[key]) else None;
    }

    method Put(key: string, schema: Json)
      modifies this
      ensures schemas == old(schemas)[key := schema]
    {
      schemas := schemas[key := schema];
    }

    method Remove(key: string)
      modifies this
      ensures schemas == old(schemas) - {key}
    {
      schemas := schemas - {key};
    }
  }

  ghost predicate AllAgree(ts: Templates, cache: map<string, Json>) {
    forall x: Subject | ':' !in x.product && CacheKey(x) in cache ::
      ActiveSchema(ts, x) == Some(cache[CacheKey(x)])
  }

  /** The table and its cache, with every call run to its end before the next. */
  class SchemaService {
    var templates: Templates
    var next: int
    const cache: InMemorySchemaCache

    ghost predicate Valid()
      reads this, cache
    {
      && UniqueActive(templates)
      && next >= 1 && (forall id | id in templates :: 1 <= id < next && ':' !in templates[id].product)
      && AllAgree(templates, cache.schemas)
    }

    constructor ()
      ensures Valid() && templates == map[] && fresh(cache) && cache.schemas == map[]
    {
      templates, next := map[], 1;
      cache := new InMemorySchemaCache();
    }

    /** `create_event_valid_template`; false is 400 Bad Request. */
    method Create(x: Subject, schema: Json) returns (ok: bool)
      requires Valid()
      modifies this
      ensures Valid() && ok == ValidIdentifier(x.product)
      ensures templates == if ok then old(templates)[old(next) := Template(x.product, x.event, schema, Draft)]
                           else old(templates)
    {
      ok := ValidIdentifier(x.product);
      if ok {
        ValidHasNoSlash(x.product, ':');
        ghost var before := templates;
        templates := templates[next := Template(x.product, x.event, schema, Draft)];
        next := next + 1;
        forall y: Subject ensures ActiveSchema(templates, y) == ActiveSchema(before, y) {
          SameActive(before, templates, y);
        }
      }
    }

    /** The schema part of `property_post` and `load_event_validator`: through the cache
        the caller gets what the table holds. */
    method LookupSchema(x: Subject) returns (schema: Option<Json>)
      requires Valid() && ':' !in x.product
      modifies cache
      ensures Valid() && templates == old(templates) && next == old(next)
      ensures schema == ActiveSchema(templates, x)
    {
      schema := cache.Get(CacheKey(x));
      if schema == None {
        schema := SelectActive(templates, next, x);
        if schema.Some? {
          cache.Put(CacheKey(x), schema.value);
          forall y: Subject | ':' !in y.product && CacheKey(y) in cache.schemas
            ensures ActiveSchema(templates, y) == Some(cache.schemas[CacheKey(y)])
          {
            if CacheKey(y) == CacheKey(x) { CacheKeyInjective(x, y); }
          }
        }
      }
    }

    /** `update_event_valid_template_status`, `update_event_valid_template` and
        `delete_event_valid_template`; false is 404, or 400 for an Active schema. */
    method WriteTemplate(id: int, op: Op) returns (ok: bool)
      requires Valid()
      modifies this, cache
      ensures Valid()
      ensures ok <==> id in old(templates) && (op.SetSchema? ==> old(templates)[id].status != Active)
      ensures ok ==> RowsAfter(old(templates), id, op, templates) && InForceAfter(old(templates), id, op, templates)
      ensures !ok ==> templates == old(templates)
    {
      if !Affects(templates, id, op) { return false; }
      var template := templates[id];
      ghost var before := templates;
      ApplyRows(templates, id, op);
      ApplyInForce(templates, id, op);
      templates := Apply(templates, id, op);
      cache.Remove(CacheKey(SubjectOf(template)));
      forall x: Subject | ':' !in x.product && CacheKey(x) in cache.schemas
        ensures ActiveSchema(templates, x) == Some(cache.schemas[CacheKey(x)])
      {
        ApplyLocal(before, id, op, x);
      }
      ApplyLocal(before, id, op, SubjectOf(template));
      return true;
    }
  }
}
