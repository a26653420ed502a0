/** The records the dashboard reads from the store (src/types/convenio.ts). */
module ConvenioTypes {
  import opened Wrappers

  /** An agreement record; null-able columns are `Option`s. */
  datatype Convenio = Convenio(
    id: string,
    nombre: string,
    codigo: Option<string>,
    ambito: string,
    sector: Option<string>,
    fechaVigenciaFin: Option<string>,
    estado: string)

  /** A publication about an agreement. */
  datatype Publicacion = Publicacion(
    id: string,
    convenioId: string,
    titulo: string,
    tipo: string,
    visto: bool)

  /** The notification settings row of one agreement. */
  datatype NotificacionConfig = NotificacionConfig(
    id: string,
    convenioId: string,
    pushNotifications: bool,
    emailNotifications: bool,
    creadoEn: string,
    actualizadoEn: string)

  /** The dashboard summary. */
  datatype ConvenioStats = ConvenioStats(
    total: nat,
    vigentes: nat,
    porSector: map<string, nat>,
    proximosVencer: nat)
}
