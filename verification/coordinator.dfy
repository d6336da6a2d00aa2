/** The data update coordinator: turns what the API client's
    `async_get_data` produced into either published data or an
    `UpdateFailed`. */
module Coordinator {
  import opened Outcomes
  import opened ApiClient

  /** What `_async_update_data` does: return data, or raise `UpdateFailed`
      with a message. */
  datatype Update = Updated(data: Dict) | UpdateFailed(message: string)

  const NoDataMessage: string := "No data received from Ohmpilot"
  const ErrorPrefix: string := "Error communicating with API: "

  /** `any(v is not None for v in data.values())` */
  predicate AnyPresent(data: Dict) {
    exists k :: k in data && data[k].Some?
  }

  /** `_async_update_data()` given the outcome of awaiting the API: `None`
      or a dictionary, or the exception it raised.  The `UpdateFailed` raised
      for missing data is itself caught by the `except Exception` clause and
      re-raised with the communication prefix, so every failure carries it. */
  function AsyncUpdateData(fetched: Result<Option<Dict>, Exception>): (u: Update)
    ensures u.Updated? <==> fetched.Success? && fetched.value.Some? && AnyPresent(fetched.value.value)
    ensures u.Updated? ==> u.data == fetched.value.value
    ensures u.UpdateFailed? ==> ErrorPrefix <= u.message
    ensures fetched.Failure? ==> u == UpdateFailed(ErrorPrefix + fetched.error.message)
    ensures fetched.Success? && fetched.value.None? ==> u == UpdateFailed(ErrorPrefix + NoDataMessage)
  {
    var inner :=
      if fetched.Failure? then Failure(fetched.error)
      else if fetched.value.None? || !AnyPresent(fetched.value.value) then Failure(Exception(NoDataMessage))
      else Success(fetched.value.value);
    if inner.Success? then Updated(inner.value) else UpdateFailed(ErrorPrefix + inner.error.message)
  }

  /** A dictionary whose values are all `None`, the empty one included, is a
      failed update, never published data. */
  lemma AllAbsentFails(data: Dict)
    requires forall k :: k in data ==> data[k].None?
    ensures AsyncUpdateData(Success(Some(data))) == UpdateFailed(ErrorPrefix + NoDataMessage)
    ensures AsyncUpdateData(Success(Some(map[]))) == UpdateFailed(ErrorPrefix + NoDataMessage)
  {
  }

  /** A partial snapshot is accepted and published unchanged. */
  lemma PartialDataPublished(data: Dict, k: string)
    requires k in data && data[k].Some?
    ensures AsyncUpdateData(Success(Some(data))) == Updated(data)
  {
  }

  /** Coordinator and client together: an update fails exactly when a read
      raised (or came back short), or when all four reads got error replies. */
  lemma UpdateOverClient(status: RegisterRead, temperature: RegisterRead, power: RegisterRead, energy: RegisterRead)
    ensures var fetched := AsyncGetData(status, temperature, power, energy);
            var u := AsyncUpdateData(if fetched.Success? then Success(Some(fetched.value)) else Failure(fetched.error));
            u.Updated? <==>
              && SyncGetData(status, temperature, power, energy).Success?
              && !(status.ErrorReply? && temperature.ErrorReply? && power.ErrorReply? && energy.ErrorReply?)
  {
    var fetched := AsyncGetData(status, temperature, power, energy);
    var snap := SyncGetData(status, temperature, power, energy);
    if snap.Success? {
      var d := ToDict(snap.value);
      assert fetched == Success(d);
      if status.ErrorReply? && temperature.ErrorReply? && power.ErrorReply? && energy.ErrorReply? {
        assert forall k :: k in d ==> d[k].None?;
      } else if !status.ErrorReply? {
        assert d["status"].Some?;
      } else if !temperature.ErrorReply? {
        assert d["temperature"].Some?;
      } else if !power.ErrorReply? {
        assert d["power"].Some?;
      } else {
        assert d["energy"].Some?;
      }
    }
  }
}
