/**
 * The external object-store bucket the image utilities talk to, reduced to
 * what can be stated without inventing the service's behaviour: a map from
 * storage paths to stored objects, the log of requests it received, and the
 * two calls `upload` and `remove`. Whether a call fails for reasons of its
 * own (network, quota, permission, an absent key) is decided by the service
 * and is passed in as `fault`.
 */
module ObjectStore {
  import opened Wrappers

  /** The options of an upload: the cache hint and whether an existing path may be replaced. */
  datatype UploadOptions = UploadOptions(cacheControl: string, upsert: bool)

  /** One call the bucket received. */
  datatype Request =
    | UploadRequest(path: string, options: UploadOptions)
    | RemoveRequest(paths: seq<string>)

  /** An object held by the bucket together with the cache hint it was stored with. */
  datatype Stored<T> = Stored(content: T, cacheControl: string)

  class Bucket<T> {
    /** Public URLs of objects are this base followed by the object's path. */
    const publicBase: string
    var objects: map<string, Stored<T>>
    var requests: seq<Request>

    constructor (publicBase: string, objects: map<string, Stored<T>>)
      ensures this.publicBase == publicBase && this.objects == objects && requests == []
    {
      this.publicBase := publicBase;
      this.objects := objects;
      requests := [];
    }

    /**
     * `upload(path, content, options)`: stores `content` under `path` and
     * returns the stored path, or None on an error. Without upsert an
     * existing path is an error and is left as it was.
     */
    method Upload(path: string, content: T, options: UploadOptions, fault: bool)
      returns (stored: Option<string>)
      modifies this
      ensures requests == old(requests) + [UploadRequest(path, options)]
      ensures stored.None? <==> fault || (!options.upsert && path in old(objects))
      ensures stored.Some? ==> stored.value == path
      ensures objects == if stored.None? then old(objects)
                         else old(objects)[path := Stored(content, options.cacheControl)]
    {
      requests := requests + [UploadRequest(path, options)];
      if fault || (!options.upsert && path in objects) {
        stored := None;
      } else {
        objects := objects[path := Stored(content, options.cacheControl)];
        stored := Some(path);
      }
    }

    /** `getPublicUrl(path)`: the bucket's base followed by the path, which can be read back from the URL. */
    function PublicUrl(path: string): (url: string)
      ensures |url| == |publicBase| + |path|
      ensures url[..|publicBase|] == publicBase && url[|publicBase|..] == path
    {
      publicBase + path
    }

    /**
     * `remove(paths)`: reports whether the service returned an error; when
     * it did not, none of the paths is held any more.
     */
    method Remove(paths: seq<string>, fault: bool) returns (error: bool)
      modifies this
      ensures requests == old(requests) + [RemoveRequest(paths)]
      ensures error == fault
      ensures objects == if error then old(objects) else old(objects) - (set p | p in paths)
    {
      requests := requests + [RemoveRequest(paths)];
      error := fault;
      if !error {
        objects := objects - (set p | p in paths);
      }
    }
  }
}
