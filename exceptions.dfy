/** The exception classes the store raises (envcrypto/exceptions.py), as one
    closed datatype. */
module Exceptions {

  datatype Error =
    | EnvKeyNotFound            // no key given and none in the environment
    | InvalidEnvFile            // file unreadable, not JSON, or a required key missing
    | VariableNotFound          // remove of an absent variable
    | VariableExists            // add of a present variable without force
    | DeploymentLevelNotFound   // no candidate file unlocks under the key
    | InvalidKey                // malformed key, or a signed name / variable that does not decrypt
    | VariableMissing           // check_variables found a variable absent from some state
    | InvalidToken              // the cipher's own exception (InvalidToken, or binascii.Error for a
                                // malformed digest), raised by the unguarded secret decrypt
}
