/** The exceptions the transfer path can throw to its caller. */
module Exceptions {

  datatype Error =
    | InvalidAmount                 // InvalidAmountException: amount null, zero or negative
    | ResourceNotFound(id: string)  // ResourceNotFoundException: no account stored under `id`
    | LowBalance                    // LowBalanceException: source balance below the amount
}
