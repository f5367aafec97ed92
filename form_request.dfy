/** FormRequest.php: the POST data captured once, read by key with a
    default; and what a handler block hands back to the browser. */
module FormRequests {
  import opened Php

  /** The submitted form. The data is copied when the request object is
      made and never changes afterwards: the datatype is immutable. */
  datatype FormRequest = FormRequest(data: map<string, Value>) {

    /** `hasData()`: something was submitted. */
    predicate HasData() {
      data != map[]
    }

    /** `get($key, $default = null)`: the submitted value when it is set
        (present and not null), the default otherwise. */
    function Get(key: string, default: Value := Null): (r: Value)
      ensures IsSet(data, key) ==> r == data[key]
      ensures !IsSet(data, key) ==> r == default
    {
      if IsSet(data, key) then data[key] else default
    }
  }

  /** On an empty request every read yields its default. */
  lemma NoDataGivesDefaults(request: FormRequest, key: string, default: Value)
    requires !request.HasData()
    ensures request.Get(key, default) == default
    ensures request.Get(key) == Null
  {
  }

  /** A non-null read without a default is exactly the submitted value. */
  lemma GetWithoutDefault(request: FormRequest, key: string)
    ensures request.Get(key) != Null <==> key in request.data && request.data[key] != Null
    ensures request.Get(key) != Null ==> request.Get(key) == request.data[key]
  {
  }

  /** What one handler block leaves for the browser: the errors it stores in
      the session, and the `Location` it redirects to. */
  datatype Response = Response(errors: map<string, string>, location: string)
}
