/** The HTTP exceptions of the web framework that the two services throw.
    Each carries the message it was constructed with; the status kind is the
    constructor. */
module Exceptions {

  datatype HttpException =
    | Conflict(message: string)      // ConflictException, status 409
    | Unauthorized(message: string)  // UnauthorizedException, status 401
    | NotFound(message: string)      // NotFoundException, status 404
}
