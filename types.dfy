/** The `KeyType` enumeration of src/main/types.ts. */
module Types {
  /** `KeyType`: the subkey id each use of a data key derives with. */
  const ENCRYPTION: nat := 1
  const SIGNING: nat := 2
}
