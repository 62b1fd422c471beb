/** The requests that carry output operations to the service (`internal/outputproto/proto.go`). */
module OutputProto {
  import opened Wrappers
  import opened Text

  const VERSION := 1
  const OP_SET := "set"
  const OP_UNSET := "unset"

  datatype OutputOp = OutputOp(op: string, key: string, value: Option<string>) {
    /** True if the operation has no error. */
    predicate Validate() {
      && (op == OP_SET || op == OP_UNSET)
      && (op == OP_SET <==> value.Some?)
      && TrimSpace(key) != ""
    }
  }

  datatype Request = Request(version: int, token: string, ops: seq<OutputOp>) {
    predicate Validate() {
      && version == VERSION
      && TrimSpace(token) != ""
      && |ops| != 0
      && forall i :: 0 <= i < |ops| ==> ops[i].Validate()
    }
  }
}
