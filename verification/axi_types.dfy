/** The two-bit xRESP encodings of AMBA AXI (section A3.4.4 of ARM IHI 0022). */
module AxiTypes {
  const RESP_OKAY: nat := 0
  const RESP_EXOKAY: nat := 1
  const RESP_SLVERR: nat := 2
  const RESP_DECERR: nat := 3
}
