/** The key-value store the service keeps one-time codes, refresh tokens and
    the access-token blacklist in (the `SetToken`, `GetToken` and
    `DeleteToken` wrappers of internal/repository/redis.go over a Redis
    client). Every command may fail; a failed write leaves the data as it
    was. Expiry is not modelled: an expired key is a key that is absent. */
module KeyValue {
  import opened Wrappers

  /** The error go-redis reports for a key that is absent. */
  const ErrNil := "redis: nil"

  /** `GET key`: the value, the client's error, or the absent-key error. */
  function Lookup(data: map<string, string>, key: string, fault: Fault): (r: Result<string, string>)
    ensures r.Success? <==> fault.None? && key in data
    ensures r.Success? ==> r.value == data[key]
    ensures fault.Some? ==> r == Failure(fault.value)
    ensures fault.None? && key !in data ==> r == Failure(ErrNil)
  {
    if fault.Some? then Failure(fault.value)
    else if key !in data then Failure(ErrNil)
    else Success(data[key])
  }

  /** The data after `SET key value` was told to succeed or fail. */
  function Written(data: map<string, string>, key: string, value: string, fault: Fault): (r: map<string, string>)
    ensures fault.None? ==> key in r && r[key] == value
    ensures forall k :: k != key ==> (k in r <==> k in data) && (k in data ==> r[k] == data[k])
    ensures fault.Some? ==> r == data
  {
    if fault.None? then data[key := value] else data
  }

  /** The data after `DEL key` was told to succeed or fail. */
  function Removed(data: map<string, string>, key: string, fault: Fault): (r: map<string, string>)
    ensures fault.None? ==> key !in r
    ensures forall k :: k != key ==> (k in r <==> k in data) && (k in data ==> r[k] == data[k])
    ensures fault.Some? ==> r == data
  {
    if fault.None? then data - {key} else data
  }

  class KeyValueStore {
    var data: map<string, string>

    constructor()
      ensures data == map[]
    {
      data := map[];
    }

    function Get(key: string, fault: Fault): (r: Result<string, string>)
      reads this
      ensures r == Lookup(data, key, fault)
    {
      Lookup(data, key, fault)
    }

    method Set(key: string, value: string, fault: Fault) returns (err: Fault)
      modifies this
      ensures err == fault && data == Written(old(data), key, value, fault)
    {
      if fault.None? {
        data := data[key := value];
      }
      err := fault;
    }

    method Delete(key: string, fault: Fault) returns (err: Fault)
      modifies this
      ensures err == fault && data == Removed(old(data), key, fault)
    {
      if fault.None? {
        data := data - {key};
      }
      err := fault;
    }
  }
}
