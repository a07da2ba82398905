/** `advisory:add-metadata`: how the reply to the metadata comment is read. */
module AddMetadata {

  datatype MetadataOutcome = MetadataAdded | Forbidden | Unexpected(statusCode: int)

  /** 201 is success, 403 ends the command as unauthorized, any other status
      ends it as an unexpected response naming the status. */
  function MetadataResponse(statusCode: int): (r: MetadataOutcome)
    ensures r == MetadataAdded <==> statusCode == 201
    ensures r == Forbidden <==> statusCode == 403
    ensures r.Unexpected? <==> statusCode != 201 && statusCode != 403
    ensures r.Unexpected? ==> r.statusCode == statusCode
  {
    if statusCode == 201 then MetadataAdded
    else if statusCode == 403 then Forbidden
    else Unexpected(statusCode)
  }
}
