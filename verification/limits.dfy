/** Compile-time limits of the server (the `#define`s at the top of src/server.c). */
module Limits {
  /** Size of the receive buffer and of the log-line buffer. */
  const BufSiz: int := 100
  /** Capacity of the client socket table and of the per-category counter table. */
  const MaxClnt: int := 10
}
