/** Limits shared by the networking code (src/lean_spec/node/networking/config.py). */
module NetworkConfig {
  const MAX_PAYLOAD_SIZE := 10 * 1024 * 1024
}
