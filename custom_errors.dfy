/**
 * The error values the service returns. `Custom` is the record
 * custom_error.CustomError, a field name and a message, whose Error() text
 * is the message alone; `Plain` is any other Go error value, identified by
 * its Error() text.
 */
module CustomErrors {

  datatype Error = Custom(field: string, message: string) | Plain(message: string)
}
