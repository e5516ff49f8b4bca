// The result codes of pam_constants.h and the control flags, chains and
// primitives of openpam.h that the PAM routines modelled here use.

module PamConstants {
  const PAM_SUCCESS: int := 0
  const PAM_SYMBOL_ERR: int := 2
  const PAM_SYSTEM_ERR: int := 4
  const PAM_BUF_ERR: int := 5
  const PAM_AUTH_ERR: int := 9
  const PAM_IGNORE: int := 25

  /** Control flags. */
  const PAM_REQUIRED: int := 1
  const PAM_REQUISITE: int := 2
  const PAM_SUFFICIENT: int := 3
  const PAM_OPTIONAL: int := 4

  /** Chains. */
  const PAM_AUTH: nat := 0
  const PAM_ACCOUNT: nat := 1
  const PAM_SESSION: nat := 2
  const PAM_PASSWORD: nat := 3
  const PAM_NUM_CHAINS: nat := 4

  /** Primitives. */
  const PAM_ACCT_MGMT: int := 0
  const PAM_AUTHENTICATE: int := 1
  const PAM_CHAUTHTOK: int := 2
  const PAM_CLOSE_SESSION: int := 3
  const PAM_OPEN_SESSION: int := 4
  const PAM_SETCRED: int := 5
  const PAM_NUM_PRIMITIVES: nat := 6
}
